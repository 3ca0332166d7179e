/** UserService.java: signup, login, withdraw, read and update a user. */
module UserService {
  import opened Common
  import opened UserEntity
  import opened Store

  datatype UserRequest = UserRequest(email: string, password: string, userName: string)
  datatype UserLoginRequest = UserLoginRequest(email: string, password: string)
  datatype UserUpdateRequest = UserUpdateRequest(password: string, userName: string)

  /** The user's id, email and name (the audit timestamps are not modelled). */
  datatype UserResponse = UserResponse(userId: int, email: string, userName: string)

  function ResponseOf(u: User): UserResponse
    reads u
  {
    UserResponse(u.userId, u.email, u.username)
  }

  /** `signup`: an email already in the store is refused and nothing is added; otherwise one
      user is added with the email, password and name exactly as supplied (the password is
      stored as given, not encoded). Emails stay unique because `Valid` is kept. */
  method Signup(db: Db, request: UserRequest) returns (r: Result<UserResponse>)
    requires db.Valid()
    modifies db
    ensures db.Valid()
    ensures (exists id | id in old(db.users) :: old(db.users[id].email) == request.email) ==>
      r == Err(Conflict) && unchanged(db)
    ensures (forall id | id in old(db.users) :: old(db.users[id].email) != request.email) ==>
      var id := old(db.nextUserId);
      && id !in old(db.users) && id in db.users
      && db.users == old(db.users)[id := db.users[id]]
      && fresh(db.users[id])
      && db.users[id].email == request.email
      && db.users[id].password == request.password
      && db.users[id].username == request.userName
      && db.schedules == old(db.schedules) && db.comments == old(db.comments)
      && r == Ok(UserResponse(id, request.email, request.userName))
      && FindMe(db, id) == r
      && Login(db, UserLoginRequest(request.email, request.password)) == r
  {
    if db.ExistsByEmail(request.email) {
      return Err(Conflict);
    }
    var user := new User(request.email, request.password, request.userName);
    db.InsertUser(user);
    r := Ok(ResponseOf(user));
  }

  /** `login`: NotFound when no user has the email; otherwise that user's summary. The
      password in the request is never looked at. */
  function Login(db: Db, request: UserLoginRequest): (r: Result<UserResponse>)
    reads db, db.Repr
    requires db.Valid()
    ensures r.Err? <==> forall id | id in db.users :: db.users[id].email != request.email
    ensures r.Err? ==> r.error == NotFound(NoUser)
    ensures r.Ok? ==>
      && r.value.email == request.email
      && r.value.userId in db.users
      && db.users[r.value.userId].email == request.email
      && r.value.userName == db.users[r.value.userId].username
  {
    if exists id | id in db.users :: db.users[id].email == request.email then
      var id :| id in db.users && db.users[id].email == request.email;
      Ok(ResponseOf(db.users[id]))
    else
      Err(NotFound(NoUser))
  }

  /** Login succeeds or fails for an email whatever password accompanies it. */
  lemma LoginIgnoresPassword(db: Db, request: UserLoginRequest, otherPassword: string)
    requires db.Valid()
    ensures Login(db, request) == Login(db, request.(password := otherPassword))
  {
  }

  /** `withdraw`: NotFound for a missing id; otherwise the user row is removed outright (a
      hard delete) and schedules and comments are left exactly as they were. */
  method Withdraw(db: Db, userId: int) returns (r: Outcome)
    requires db.Valid()
    modifies db
    ensures db.Valid()
    ensures userId !in old(db.users) ==> r == Fail(NotFound(NoUser)) && unchanged(db)
    ensures userId in old(db.users) ==>
      && r == Done
      && db.users == old(db.users) - {userId}
      && db.schedules == old(db.schedules) && db.comments == old(db.comments)
    ensures userId in old(db.users) ==>
      && FindMe(db, userId) == Err(NotFound(NoUser))
      && forall request: UserLoginRequest | request.email == old(db.users[userId].email) ::
           Login(db, request) == Err(NotFound(NoUser))
  {
    if userId !in db.users {
      return Fail(NotFound(NoUser));
    }
    db.DeleteUser(userId);
    r := Done;
  }

  /** `findMe`: NotFound exactly when the id is absent; otherwise that user's summary. */
  function FindMe(db: Db, userId: int): (r: Result<UserResponse>)
    reads db, db.Repr
    requires db.Valid()
    ensures r.Err? <==> userId !in db.users
    ensures r.Err? ==> r.error == NotFound(NoUser)
    ensures r.Ok? ==>
      r.value == UserResponse(userId, db.users[userId].email, db.users[userId].username)
  {
    if userId in db.users then Ok(ResponseOf(db.users[userId])) else Err(NotFound(NoUser))
  }

  /** `updateMe`: NotFound for a missing id; otherwise password and name are replaced and
      the email and id kept. */
  method UpdateMe(db: Db, userId: int, request: UserUpdateRequest) returns (r: Result<UserResponse>)
    requires db.Valid()
    modifies if userId in db.users then {db.users[userId]} else {}
    ensures db.Valid()
    ensures userId !in db.users ==> r == Err(NotFound(NoUser))
    ensures userId in db.users ==>
      var u := db.users[userId];
      && u.password == request.password && u.username == request.userName
      && u.email == old(u.email) && u.userId == userId
      && r == Ok(UserResponse(userId, u.email, request.userName))
    ensures r == FindMe(db, userId)
  {
    if userId !in db.users {
      return Err(NotFound(NoUser));
    }
    var user := db.users[userId];
    user.UpdateUser(request.password, request.userName);
    r := Ok(ResponseOf(user));
  }
}
