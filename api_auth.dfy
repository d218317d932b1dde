/** The `/auth` endpoints. Password hashing, password verification and token creation live
    in a security module outside this model; they are parameters here. */
module AuthApi {
  import opened Results
  import opened Models
  import opened Store
  import opened Schemas
  import CrudUser

  const DuplicateEmail := "A user with this email already exists in the system."
  const BadCredentials := "Incorrect email or password"

  /** `POST /auth/register`: 400 when the email is already registered, with nothing written;
      otherwise exactly one new user, stored with the hash of the password and no team, and
      returned without the hash. */
  method RegisterUser(db: Database, userIn: UserCreate, hash: string -> string) returns (r: Response<UserOut>)
    requires db.Consistent()
    modifies db
    ensures db.Consistent()
    ensures r.Err? <==> userIn.email in old(db.Emails())
    ensures r.Err? ==> r == Err(400, DuplicateEmail) && unchanged(db)
    ensures r.Ok? ==>
      var u := User(old(db.nextId), userIn.email, userIn.fullName, hash(userIn.password), userIn.role, None);
      && r == Ok(200, Public(u))
      && u.id !in old(db.users)
      && db.State() == old(db.State()).(users := old(db.users)[u.id := u], nextId := u.id + 1)
    ensures db.FlagsOneWay()
  {
    var existing := CrudUser.GetUserByEmail(db, userIn.email);
    if existing.Some? {
      return Err(400, DuplicateEmail);
    }
    var user := CrudUser.CreateUser(db, userIn, hash);
    r := Ok(200, Public(user.value));
  }

  /** `POST /auth/login`: 401 unless some user has the submitted email and the password checks
      against that user's hash; then a bearer token whose subject is that user's id. */
  function LoginForAccessToken(db: Database, username: string, password: string,
                               verify: (string, string) -> bool, createToken: int -> string): (r: Response<Token>)
    reads db
    requires db.Valid()
    ensures r.Ok? <==> exists k :: k in db.users && db.users[k].email == username && verify(password, db.users[k].hashedPassword)
    ensures r.Err? ==> r == Err(401, BadCredentials)
    ensures r.Ok? ==> exists k :: k in db.users && db.users[k].email == username && r == Ok(200, Token(createToken(k), "bearer"))
  {
    var user := CrudUser.GetUserByEmail(db, username);
    if user.None? || !verify(password, user.value.hashedPassword) then Err(401, BadCredentials)
    else Ok(200, Token(createToken(user.value.id), "bearer"))
  }
}
