/** The `/teams` endpoints. The caller is the authenticated user the dependency resolved; the
    manager-only gate is a precondition. */
module TeamsApi {
  import opened Results
  import opened Models
  import opened Store
  import opened Schemas
  import CrudUser
  import CrudTeam

  const AlreadyHasTeam := "Manager already has a team."
  const TeamNotFound := "Team not found"
  const NotYourTeam := "Cannot add members to another manager's team"
  const EmployeeNotFound := "Employee not found"
  const NotAnEmployee := "Can only add users with the 'employee' role"
  const AlreadyInTeam := "Employee is already in a team"

  /** The caller manages some team. */
  ghost predicate HasTeam(db: Database, managerId: int)
    reads db
  {
    exists k :: k in db.teams && db.teams[k].managerId == managerId
  }

  /** `POST /teams`: 400 when the caller already manages a team, with nothing written;
      otherwise exactly one new team, managed by the caller. */
  method CreateTeam(db: Database, caller: User, teamIn: TeamCreate) returns (r: Response<TeamOut>)
    requires db.Consistent() && db.IsCaller(caller) && caller.role == Manager
    modifies db
    ensures db.Consistent()
    ensures r.Err? <==> old(HasTeam(db, caller.id))
    ensures r.Err? ==> r == Err(400, AlreadyHasTeam) && unchanged(db)
    ensures r.Ok? ==>
      var t := Team(old(db.nextId), teamIn.name, caller.id);
      && t.id !in old(db.teams)
      && db.State() == old(db.State()).(teams := old(db.teams)[t.id := t], nextId := t.id + 1)
      && r == Ok(201, TeamOut(t.id, t.name, Public(caller), []))
    ensures db.FlagsOneWay()
  {
    var existing := CrudTeam.GetTeamByManager(db, caller.id);
    if existing.Some? {
      return Err(400, AlreadyHasTeam);
    }
    var team := CrudTeam.CreateTeam(db, teamIn, caller.id);
    assert MembersOf(db.State(), team.id) == [] by {
      assert db.Linked();
      assert forall k :: k in db.users ==> db.users[k].teamId != Some(team.id);
    }
    r := Ok(201, PresentTeam(db.State(), team));
  }

  /** `GET /teams/me`: the caller's team with its manager and members, or 404. */
  function ReadMyTeam(db: Database, caller: User): (r: Response<TeamOut>)
    reads db
    requires db.Consistent()
    ensures r.Err? <==> !HasTeam(db, caller.id)
    ensures r.Err? ==> r == Err(404, TeamNotFound)
    ensures r.Ok? ==> exists k :: k in db.teams && db.teams[k].managerId == caller.id && db.teams[k].managerId in db.users
                        && r == Ok(200, PresentTeam(db.State(), db.teams[k]))
  {
    var team := CrudTeam.GetTeamByManager(db, caller.id);
    if team.None? then Err(404, TeamNotFound)
    else
      assert db.Linked() && team.value.id in db.teams;
      Ok(200, PresentTeam(db.State(), team.value))
  }

  /** `POST /teams/{team_id}/members/{user_id}`: the checks run in this order and the first
      that fails decides the answer — the caller must manage team `teamId` (403), the user
      must exist (404), be an employee (400) and belong to no team (400). Any failure writes
      nothing; success sets that user's team and nothing else. */
  method AddTeamMember(db: Database, caller: User, teamId: int, userId: int) returns (r: Response<UserOut>)
    requires db.Consistent() && db.IsCaller(caller) && caller.role == Manager
    modifies db
    ensures db.Consistent()
    ensures r.Err? ==> unchanged(db)
    ensures !(teamId in old(db.teams) && old(db.teams)[teamId].managerId == caller.id) ==> r == Err(403, NotYourTeam)
    ensures teamId in old(db.teams) && old(db.teams)[teamId].managerId == caller.id ==>
      if userId !in old(db.users) then r == Err(404, EmployeeNotFound)
      else if old(db.users)[userId].role != Employee then r == Err(400, NotAnEmployee)
      else if old(db.users)[userId].teamId.Some? then r == Err(400, AlreadyInTeam)
      else
        var u := old(db.users)[userId].(teamId := Some(teamId));
        && r == Ok(200, Public(u))
        && db.State() == old(db.State()).(users := old(db.users)[userId := u])
    ensures db.FlagsOneWay()
  {
    var team := CrudTeam.GetTeamByManager(db, caller.id);
    if team.Some? {
      CrudTeam.TeamByManagerIs(db, caller.id, teamId);
    } else {
      assert !(teamId in db.teams && db.teams[teamId].managerId == caller.id);
    }
    if team.None? || team.value.id != teamId {
      return Err(403, NotYourTeam);
    }
    var userToAdd := CrudUser.GetUser(db, userId);
    if userToAdd.None? {
      return Err(404, EmployeeNotFound);
    }
    if userToAdd.value.role != Employee {
      return Err(400, NotAnEmployee);
    }
    if userToAdd.value.teamId.Some? {
      return Err(400, AlreadyInTeam);
    }
    var u := CrudTeam.AddEmployeeToTeam(db, team.value.id, userToAdd.value.id);
    r := Ok(200, Public(u));
  }

  /** `GET /teams`: every team, public fields only, in key order. */
  function ReadTeams(db: Database): (r: seq<TeamPublic>)
    reads db
    requires db.Valid()
    ensures forall t :: t in r <==> t.id in db.teams && t.name == db.teams[t.id].name
    ensures forall i, j :: 0 <= i < j < |r| ==> r[i].id < r[j].id
  {
    PublicTeams(db.teams, db.nextId)
  }
}
