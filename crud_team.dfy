/** Data access for `teams`: lookups, insertion and membership assignment. */
module CrudTeam {
  import opened Results
  import opened Models
  import opened Query
  import opened Store
  import opened Transitions

  /** The team with primary key `teamId`, or None. */
  function GetTeam(db: Database, teamId: int): (r: Option<Team>)
    reads db
    requires db.Valid()
    ensures r.Some? <==> teamId in db.teams
    ensures r.Some? ==> r.value == db.teams[teamId] && r.value.id == teamId
  {
    if teamId in db.teams then Some(db.teams[teamId]) else None
  }

  /** A team managed by `managerId` (the lowest-keyed one), or None when there is none. */
  function GetTeamByManager(db: Database, managerId: int): (r: Option<Team>)
    reads db
    requires db.Valid()
    ensures r.Some? ==> r.value.id in db.teams && db.teams[r.value.id] == r.value && r.value.managerId == managerId
    ensures r.None? <==> forall k :: k in db.teams ==> db.teams[k].managerId != managerId
  {
    var k := First(db.teams, (t: Team) => t.managerId == managerId, db.nextId);
    if k.Some? then Some(db.teams[k.value]) else None
  }

  /** With at most one team per manager, the team found for `managerId` is the one whose
      key is `teamId` exactly when that team is managed by `managerId`. */
  lemma TeamByManagerIs(db: Database, managerId: int, teamId: int)
    requires db.Valid() && db.OneTeamPerManager()
    ensures (GetTeamByManager(db, managerId).Some? && GetTeamByManager(db, managerId).value.id == teamId)
        <==> (teamId in db.teams && db.teams[teamId].managerId == managerId)
  {
    var r := GetTeamByManager(db, managerId);
    if teamId in db.teams && db.teams[teamId].managerId == managerId {
      assert r.Some?;
      assert db.teams[r.value.id].managerId == db.teams[teamId].managerId;
    }
  }

  /** Inserts one team with the given name and manager; no other table changes. */
  method CreateTeam(db: Database, team: TeamCreate, managerId: int) returns (t: Team)
    requires db.Valid()
    modifies db
    ensures db.Valid()
    ensures t == Team(old(db.nextId), team.name, managerId) && t.id !in old(db.teams)
    ensures db.State() == old(db.State()).(teams := old(db.teams)[t.id := t], nextId := t.id + 1)
    ensures old(db.Consistent()) && managerId in db.users && db.users[managerId].role == Manager
            && (forall k :: k in old(db.teams) ==> old(db.teams)[k].managerId != managerId)
            ==> db.Consistent()
    ensures db.FlagsOneWay()
  {
    t := Team(db.nextId, team.name, managerId);
    InsertTeam(db.State(), t);
    db.teams := db.teams[t.id := t];
    db.nextId := db.nextId + 1;
  }

  /** Sets the user's team to `teamId`, without any check of role or earlier membership;
      every other row is unchanged. */
  method AddEmployeeToTeam(db: Database, teamId: int, userId: int) returns (u: User)
    requires db.Valid() && teamId in db.teams && userId in db.users
    modifies db
    ensures db.Valid()
    ensures u == old(db.users)[userId].(teamId := Some(teamId))
    ensures db.State() == old(db.State()).(users := old(db.users)[userId := u])
    ensures old(db.Consistent()) && old(db.users)[userId].role == Employee && old(db.users)[userId].teamId.None?
            ==> db.Consistent()
    ensures db.FlagsOneWay()
  {
    u := db.users[userId].(teamId := Some(teamId));
    AssignTeam(db.State(), userId, teamId);
    db.users := db.users[userId := u];
  }
}
