/** The relational store behind the session: one table per entity, the feedback/tag
    association, an id allocator and an abstract monotone clock that stands in for
    `datetime.utcnow`. */
module Store {
  import opened Results
  import opened Models

  /** A value copy of every field of a `Database`, used to state a whole new state at once. */
  datatype Snapshot = Snapshot(
    users: map<int, User>,
    teams: map<int, Team>,
    feedback: map<int, Feedback>,
    comments: map<int, Comment>,
    tags: map<int, Tag>,
    notifications: map<int, Notification>,
    feedbackTags: set<(int, int)>,
    nextId: int,
    clock: nat)
  {
    /** Every email that is registered. */
    function Emails(): set<string>
    {
      set k | k in users :: users[k].email
    }

    /** Storage invariant: primary keys are allocated below `nextId` and stored in their row,
        timestamps are readings of the clock, notifications are stamped in key order, and the
        two unique indexes (`users.email`, `tags.name`) hold. */
    ghost predicate Valid()
    {
      && 1 <= nextId
      && UsersKeyed(users, nextId) && TeamsKeyed(teams, nextId) && FeedbackKeyed(feedback, nextId)
      && CommentsKeyed(comments, nextId) && TagsKeyed(tags, nextId) && NotificationsKeyed(notifications, nextId)
      && FeedbackStamped(feedback, clock) && CommentsStamped(comments, clock)
      && NotificationsStamped(notifications, clock) && NotificationsInOrder(notifications)
      && EmailsUnique(users) && TagNamesUnique(tags)
    }

    /** Referential integrity: every foreign key names an existing row. */
    ghost predicate Linked()
    {
      && MembershipsLinked(users, teams) && ManagersLinked(teams, users) && FeedbackLinked(feedback, users)
      && CommentsOnFeedback(comments, feedback) && AuthorsExist(comments, users)
      && NotificationsLinked(notifications, users)
      && PairsLinked(feedbackTags, feedback, tags)
    }

    /** A manager owns at most one team (kept by the team handler, not by the table). */
    ghost predicate OneTeamPerManager()
    {
      OneTeamEach(teams)
    }

    /** Only employees are members of a team, and every team is managed by a manager. */
    ghost predicate RolesRespected()
    {
      MembersAreEmployees(users) && ManagersAreManagers(teams, users)
    }

    /** `managerId` manages the team that `employeeId` belongs to. */
    predicate ManagesTeamOf(managerId: int, employeeId: int)
    {
      Manages(users, teams, managerId, employeeId)
    }

    /** Every piece of feedback was given by the manager of its employee's team. */
    ghost predicate FeedbackWithinTeam()
    {
      FeedbackInTeams(feedback, users, teams)
    }

    /** Everything the endpoint handlers keep true between requests. */
    ghost predicate Consistent()
    {
      Valid() && Linked() && OneTeamPerManager() && RolesRespected() && FeedbackWithinTeam()
    }
  }

  // One predicate per table and per constraint, each over only the columns it reads, so that a
  // write to one table leaves the others' facts syntactically untouched.

  ghost predicate UsersKeyed(users: map<int, User>, bound: int)
  {
    forall k :: k in users ==> 1 <= k < bound && users[k].id == k
  }

  ghost predicate TeamsKeyed(teams: map<int, Team>, bound: int)
  {
    forall k :: k in teams ==> 1 <= k < bound && teams[k].id == k
  }

  ghost predicate FeedbackKeyed(feedback: map<int, Feedback>, bound: int)
  {
    forall k :: k in feedback ==> 1 <= k < bound && feedback[k].id == k
  }

  ghost predicate CommentsKeyed(comments: map<int, Comment>, bound: int)
  {
    forall k :: k in comments ==> 1 <= k < bound && comments[k].id == k
  }

  ghost predicate TagsKeyed(tags: map<int, Tag>, bound: int)
  {
    forall k :: k in tags ==> 1 <= k < bound && tags[k].id == k
  }

  ghost predicate NotificationsKeyed(notifications: map<int, Notification>, bound: int)
  {
    forall k :: k in notifications ==> 1 <= k < bound && notifications[k].id == k
  }

  ghost predicate FeedbackStamped(feedback: map<int, Feedback>, clock: nat)
  {
    forall k :: k in feedback ==> feedback[k].createdAt <= feedback[k].updatedAt <= clock
  }

  ghost predicate CommentsStamped(comments: map<int, Comment>, clock: nat)
  {
    forall k :: k in comments ==> comments[k].createdAt <= clock
  }

  ghost predicate NotificationsStamped(notifications: map<int, Notification>, clock: nat)
  {
    forall k :: k in notifications ==> notifications[k].createdAt <= clock
  }

  ghost predicate NotificationsInOrder(notifications: map<int, Notification>)
  {
    forall a, b :: a in notifications && b in notifications && a < b ==>
      notifications[a].createdAt < notifications[b].createdAt
  }

  ghost predicate EmailsUnique(users: map<int, User>)
  {
    forall a, b :: a in users && b in users && users[a].email == users[b].email ==> a == b
  }

  ghost predicate TagNamesUnique(tags: map<int, Tag>)
  {
    forall a, b :: a in tags && b in tags && tags[a].name == tags[b].name ==> a == b
  }

  ghost predicate MembershipsLinked(users: map<int, User>, teams: map<int, Team>)
  {
    forall k :: k in users && users[k].teamId.Some? ==> users[k].teamId.value in teams
  }

  ghost predicate ManagersLinked(teams: map<int, Team>, users: map<int, User>)
  {
    forall k :: k in teams ==> teams[k].managerId in users
  }

  ghost predicate FeedbackLinked(feedback: map<int, Feedback>, users: map<int, User>)
  {
    forall k :: k in feedback ==> feedback[k].employeeId in users && feedback[k].managerId in users
  }

  ghost predicate CommentsOnFeedback(comments: map<int, Comment>, feedback: map<int, Feedback>)
  {
    forall k :: k in comments ==> comments[k].feedbackId in feedback
  }

  ghost predicate AuthorsExist(comments: map<int, Comment>, users: map<int, User>)
  {
    forall k :: k in comments ==> comments[k].userId in users
  }

  ghost predicate NotificationsLinked(notifications: map<int, Notification>, users: map<int, User>)
  {
    forall k :: k in notifications ==> notifications[k].userId in users
  }

  ghost predicate PairsLinked(pairs: set<(int, int)>, feedback: map<int, Feedback>, tags: map<int, Tag>)
  {
    forall p :: p in pairs ==> p.0 in feedback && p.1 in tags
  }

  ghost predicate OneTeamEach(teams: map<int, Team>)
  {
    forall a, b :: a in teams && b in teams && teams[a].managerId == teams[b].managerId ==> a == b
  }

  ghost predicate MembersAreEmployees(users: map<int, User>)
  {
    forall k :: k in users && users[k].teamId.Some? ==> users[k].role == Employee
  }

  ghost predicate ManagersAreManagers(teams: map<int, Team>, users: map<int, User>)
  {
    forall k :: k in teams && teams[k].managerId in users ==> users[teams[k].managerId].role == Manager
  }

  predicate Manages(users: map<int, User>, teams: map<int, Team>, managerId: int, employeeId: int)
  {
    && employeeId in users
    && users[employeeId].teamId.Some?
    && users[employeeId].teamId.value in teams
    && teams[users[employeeId].teamId.value].managerId == managerId
  }

  ghost predicate FeedbackInTeams(feedback: map<int, Feedback>, users: map<int, User>, teams: map<int, Team>)
  {
    forall k :: k in feedback ==> Manages(users, teams, feedback[k].managerId, feedback[k].employeeId)
  }

  class Database {
    var users: map<int, User>
    var teams: map<int, Team>
    var feedback: map<int, Feedback>
    var comments: map<int, Comment>
    var tags: map<int, Tag>
    var notifications: map<int, Notification>
    /** `feedback_tags`: its composite primary key makes it a set of (feedback id, tag id). */
    var feedbackTags: set<(int, int)>
    /** The next primary key to hand out; keys start at 1. */
    var nextId: int
    /** The last time handed out as a timestamp. */
    var clock: nat

    /** An empty store. */
    constructor ()
      ensures Consistent()
      ensures users == map[] && teams == map[] && feedback == map[] && comments == map[]
      ensures tags == map[] && notifications == map[] && feedbackTags == {}
      ensures nextId == 1 && clock == 0
    {
      users, teams, feedback, comments := map[], map[], map[], map[];
      tags, notifications, feedbackTags := map[], map[], {};
      nextId, clock := 1, 0;
    }

    function State(): Snapshot
      reads this
    {
      Snapshot(users, teams, feedback, comments, tags, notifications, feedbackTags, nextId, clock)
    }

    function Emails(): set<string>
      reads this
    {
      State().Emails()
    }

    /** The invariants of the current contents (see `Snapshot`). */
    ghost predicate Valid() reads this { State().Valid() }
    ghost predicate Linked() reads this { State().Linked() }
    ghost predicate OneTeamPerManager() reads this { State().OneTeamPerManager() }
    ghost predicate RolesRespected() reads this { State().RolesRespected() }
    ghost predicate FeedbackWithinTeam() reads this { State().FeedbackWithinTeam() }
    ghost predicate Consistent() reads this { State().Consistent() }

    predicate ManagesTeamOf(managerId: int, employeeId: int)
      reads this
    {
      State().ManagesTeamOf(managerId, employeeId)
    }

    /** `caller` is the current user the authentication dependency resolved. */
    ghost predicate IsCaller(caller: User)
      reads this
    {
      caller.id in users && users[caller.id] == caller
    }

    /** The one-way flags: no transition turns `acknowledged` or `is_read` back to false,
        and no notification disappears. */
    twostate predicate FlagsOneWay()
      reads this
    {
      && (forall k :: k in old(feedback) && k in feedback && old(feedback)[k].acknowledged ==> feedback[k].acknowledged)
      && (forall k :: k in old(notifications) ==> k in notifications)
      && (forall k :: k in old(notifications) && old(notifications)[k].isRead ==> notifications[k].isRead)
    }
  }

  /** In a consistent store a piece of feedback has two different parties: its employee is a
      team member (an employee) and its manager manages that team (a manager). */
  lemma PartiesDiffer(db: Database, k: int)
    requires db.Consistent() && k in db.feedback
    ensures db.feedback[k].employeeId in db.users && db.feedback[k].managerId in db.users
    ensures db.feedback[k].employeeId != db.feedback[k].managerId
    ensures db.users[db.feedback[k].employeeId].role == Employee
    ensures db.users[db.feedback[k].managerId].role == Manager
  {
    var f := db.feedback[k];
    assert db.ManagesTeamOf(f.managerId, f.employeeId);
    var t := db.users[f.employeeId].teamId.value;
    assert t in db.teams && db.teams[t].managerId == f.managerId;
  }
}

/** How each kind of write the data-access layer performs affects the store's invariants. */
module Transitions {
  import opened Results
  import opened Models
  import opened Store

  /** Inserting a user with a fresh key, an unregistered email and no team. */
  lemma InsertUser(s: Snapshot, u: User)
    requires s.Valid() && u.id == s.nextId && u.email !in s.Emails() && u.teamId.None?
    ensures s.(users := s.users[u.id := u], nextId := u.id + 1).Valid()
    ensures s.Consistent() ==> s.(users := s.users[u.id := u], nextId := u.id + 1).Consistent()
  {
    InsertUserValid(s, u);
    if s.Consistent() {
      var s' := s.(users := s.users[u.id := u], nextId := u.id + 1);
      assert s'.Linked() && s'.RolesRespected() && s'.FeedbackWithinTeam();
    }
  }

  lemma InsertUserValid(s: Snapshot, u: User)
    requires s.Valid() && u.id == s.nextId && u.email !in s.Emails()
    ensures s.(users := s.users[u.id := u], nextId := u.id + 1).Valid()
  {
  }

  /** Inserting a team with a fresh key. */
  lemma InsertTeam(s: Snapshot, t: Team)
    requires s.Valid() && t.id == s.nextId
    ensures s.(teams := s.teams[t.id := t], nextId := t.id + 1).Valid()
    ensures s.Consistent() && t.managerId in s.users && s.users[t.managerId].role == Manager
            && (forall k :: k in s.teams ==> s.teams[k].managerId != t.managerId)
            ==> s.(teams := s.teams[t.id := t], nextId := t.id + 1).Consistent()
  {
  }

  /** Setting the team of an existing user. */
  lemma AssignTeam(s: Snapshot, userId: int, teamId: int)
    requires s.Valid() && userId in s.users && teamId in s.teams
    ensures s.(users := s.users[userId := s.users[userId].(teamId := Some(teamId))]).Valid()
    ensures s.Consistent() && s.users[userId].role == Employee && s.users[userId].teamId.None?
            ==> s.(users := s.users[userId := s.users[userId].(teamId := Some(teamId))]).Consistent()
  {
  }

  /** Inserting feedback with a fresh key, stamped with the next clock reading. */
  lemma InsertFeedback(s: Snapshot, f: Feedback)
    requires s.Valid() && f.id == s.nextId && f.createdAt == f.updatedAt == s.clock + 1
    ensures s.(feedback := s.feedback[f.id := f], nextId := f.id + 1, clock := s.clock + 1).Valid()
    ensures s.Consistent() && s.ManagesTeamOf(f.managerId, f.employeeId)
            ==> s.(feedback := s.feedback[f.id := f], nextId := f.id + 1, clock := s.clock + 1).Consistent()
  {
    InsertFeedbackValid(s, f);
    var s' := s.(feedback := s.feedback[f.id := f], nextId := f.id + 1, clock := s.clock + 1);
    if s.Consistent() && s.ManagesTeamOf(f.managerId, f.employeeId) {
      assert s.Linked();
      var t := s.users[f.employeeId].teamId.value;
      assert t in s.teams;
      assert s.teams[t].managerId in s.users;
      assert s'.Linked();
      assert forall k :: k in s'.feedback ==> s'.ManagesTeamOf(s'.feedback[k].managerId, s'.feedback[k].employeeId);
    }
  }

  lemma InsertFeedbackValid(s: Snapshot, f: Feedback)
    requires s.Valid() && f.id == s.nextId && f.createdAt == f.updatedAt == s.clock + 1
    ensures s.(feedback := s.feedback[f.id := f], nextId := f.id + 1, clock := s.clock + 1).Valid()
  {
  }

  /** Rewriting an existing feedback row without touching its parties or creation time,
      at a clock reading no earlier than before. */
  lemma ReplaceFeedback(s: Snapshot, f: Feedback, clock: nat)
    requires s.Valid() && f.id in s.feedback && s.clock <= clock
    requires f.employeeId == s.feedback[f.id].employeeId && f.managerId == s.feedback[f.id].managerId
    requires f.createdAt == s.feedback[f.id].createdAt && f.createdAt <= f.updatedAt <= clock
    ensures s.(feedback := s.feedback[f.id := f], clock := clock).Valid()
    ensures s.Consistent() ==> s.(feedback := s.feedback[f.id := f], clock := clock).Consistent()
  {
  }

  /** Inserting a comment with a fresh key, stamped with the next clock reading. */
  lemma InsertComment(s: Snapshot, c: Comment)
    requires s.Valid() && c.id == s.nextId && c.createdAt == s.clock + 1
    ensures s.(comments := s.comments[c.id := c], nextId := c.id + 1, clock := s.clock + 1).Valid()
    ensures s.Consistent() && c.feedbackId in s.feedback && c.userId in s.users
            ==> s.(comments := s.comments[c.id := c], nextId := c.id + 1, clock := s.clock + 1).Consistent()
  {
  }

  /** Inserting a notification with a fresh key, stamped with the next clock reading. */
  lemma InsertNotification(s: Snapshot, n: Notification)
    requires s.Valid() && n.id == s.nextId && n.createdAt == s.clock + 1
    ensures s.(notifications := s.notifications[n.id := n], nextId := n.id + 1, clock := s.clock + 1).Valid()
    ensures s.Consistent() && n.userId in s.users
            ==> s.(notifications := s.notifications[n.id := n], nextId := n.id + 1, clock := s.clock + 1).Consistent()
  {
  }

  /** Setting `is_read` on an existing notification. */
  lemma MarkRead(s: Snapshot, id: int)
    requires s.Valid() && id in s.notifications
    ensures s.(notifications := s.notifications[id := s.notifications[id].(isRead := true)]).Valid()
    ensures s.Consistent() ==> s.(notifications := s.notifications[id := s.notifications[id].(isRead := true)]).Consistent()
  {
  }

  /** The comments that survive deleting feedback `feedbackId`. */
  function CommentsNotOn(comments: map<int, Comment>, feedbackId: int): (r: map<int, Comment>)
    ensures forall k :: k in r <==> k in comments && comments[k].feedbackId != feedbackId
    ensures forall k :: k in r ==> r[k] == comments[k]
  {
    map k | k in comments && comments[k].feedbackId != feedbackId :: comments[k]
  }

  /** The tag associations that survive deleting feedback `feedbackId`. */
  function PairsNotOn(pairs: set<(int, int)>, feedbackId: int): (r: set<(int, int)>)
    ensures forall p :: p in r <==> p in pairs && p.0 != feedbackId
  {
    set p | p in pairs && p.0 != feedbackId
  }

  /** Deleting feedback together with its comments and its tag associations. */
  lemma RemoveFeedback(s: Snapshot, feedbackId: int)
    requires s.Valid() && feedbackId in s.feedback
    ensures s.(feedback := s.feedback - {feedbackId}, comments := CommentsNotOn(s.comments, feedbackId),
               feedbackTags := PairsNotOn(s.feedbackTags, feedbackId)).Valid()
    ensures s.Consistent() ==> s.(feedback := s.feedback - {feedbackId}, comments := CommentsNotOn(s.comments, feedbackId),
                                  feedbackTags := PairsNotOn(s.feedbackTags, feedbackId)).Consistent()
  {
    var s' := s.(feedback := s.feedback - {feedbackId}, comments := CommentsNotOn(s.comments, feedbackId),
                 feedbackTags := PairsNotOn(s.feedbackTags, feedbackId));
    assert s'.Valid();
    if s.Consistent() {
      assert s'.Linked();
      assert s'.FeedbackWithinTeam();
    }
  }
}
