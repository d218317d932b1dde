/** Data access for `users`: lookup by id and by email, and insertion. */
module CrudUser {
  import opened Results
  import opened Models
  import opened Query
  import opened Store
  import opened Transitions

  /** The row with primary key `userId`, or None. */
  function GetUser(db: Database, userId: int): (r: Option<User>)
    reads db
    requires db.Valid()
    ensures r.Some? <==> userId in db.users
    ensures r.Some? ==> r.value == db.users[userId] && r.value.id == userId
  {
    if userId in db.users then Some(db.users[userId]) else None
  }

  /** A user registered under `email`, or None when no user has it. */
  function GetUserByEmail(db: Database, email: string): (r: Option<User>)
    reads db
    requires db.Valid()
    ensures r.Some? <==> email in db.Emails()
    ensures r.Some? ==> r.value.email == email && r.value.id in db.users && db.users[r.value.id] == r.value
  {
    var k := First(db.users, (u: User) => u.email == email, db.nextId);
    if k.Some? then Some(db.users[k.value]) else None
  }

  /** Inserts a user with the given email, name and role, the hash of the password and no
      team. For a registered email the commit fails on the unique index of `email` and raises;
      that failure is modelled as None, with nothing written. */
  method CreateUser(db: Database, input: UserCreate, hash: string -> string) returns (r: Option<User>)
    requires db.Valid()
    modifies db
    ensures db.Valid()
    ensures r.None? <==> input.email in old(db.Emails())
    ensures r.None? ==> unchanged(db)
    ensures r.Some? ==> r.value == User(old(db.nextId), input.email, input.fullName, hash(input.password), input.role, None)
    ensures r.Some? ==> db.State() == old(db.State()).(users := old(db.users)[r.value.id := r.value], nextId := r.value.id + 1)
    ensures r.Some? ==> r.value.id !in old(db.users)
    ensures r.Some? && old(db.Consistent()) ==> db.Consistent()
    ensures db.FlagsOneWay()
  {
    if input.email in db.Emails() {
      return None;
    }
    var u := User(db.nextId, input.email, input.fullName, hash(input.password), input.role, None);
    InsertUser(db.State(), u);
    db.users := db.users[u.id := u];
    db.nextId := db.nextId + 1;
    r := Some(u);
  }
}
