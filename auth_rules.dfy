// The business rules of AuthService. The password encoder and the token
// generator are library services whose workings are not modelled: they are
// passed in as functions.
module AuthRules {
  import opened Entities
  import opened Strings
  import opened Lists
  import opened Store
  import Messages

  /** register: Conflict when the email is taken; otherwise a user with the
      USER role added and the encoded password, stored under the next
      generated id with no products. */
  function Register(users: Users, newId: UserId, req: UserRequest, encode: string -> string): (s: Step<UserResponse, Users>)
    requires newId !in users
    ensures s.result.Ok? <==> !ExistsByEmail(users, req.email)
    ensures s.result.Err? ==> s.after == users
    ensures s.result.Err? ==> s.result.error == Conflict(Messages.FieldInUseAsWritten("email", req.email))
    ensures s.result.Err? ==> Contains(s.result.error.message, "email")
    ensures s.result.Ok? ==>
      && s.after == users[newId := User(newId, req.username, req.email, encode(req.password), [USER], [])]
      && s.result.value == UserResponseOf(s.after[newId])
  {
    if ExistsByEmail(users, req.email) then
      Step(Err(Conflict(Messages.FieldInUseAsWritten("email", req.email))), users)
    else
      var user := User(0, req.username, req.email, req.password, [], []);
      var user := user.(roles := user.roles + [USER]);
      var user := user.(password := encode(user.password));
      var saved := user.(id := newId);
      assert saved.roles == [USER];
      Step(Ok(UserResponseOf(saved)), users[newId := saved])
  }

  /** The user-lookup part of login, after the credentials were accepted:
      the token issued for the stored user's email, or NotFound. */
  function Login(users: Users, email: string, generateToken: string -> string): (r: Result<string>)
    requires UsersKeyed(users) && EmailsUnique(users)
    ensures r.Ok? <==> ExistsByEmail(users, email)
    ensures r.Err? ==> r.error == NotFound(UserResource)
    ensures r.Ok? ==> r.value == generateToken(email)
  {
    match FindByEmail(users, email)
    case None => Err(NotFound(UserResource))
    case Some(user) => Ok(generateToken(user.email))
  }

  /** Registration keeps every fact the user service relies on, provided the
      fresh id is not already referenced from a product's user list. */
  lemma RegisterKeepsInvariant(db: Db, newId: UserId, req: UserRequest, encode: string -> string)
    requires Invariant(db) && newId !in db.users
    requires forall p :: p in db.products ==> newId !in db.products[p].users
    ensures Invariant(Db(Register(db.users, newId, req, encode).after, db.products))
  {
    var s := Register(db.users, newId, req, encode);
    if s.result.Ok? {
      AppendDistinct([], USER);
    }
  }

  /** A registered user can log in: the lookup finds the new email. */
  lemma RegisterThenLogin(users: Users, newId: UserId, req: UserRequest, encode: string -> string, generateToken: string -> string)
    requires UsersKeyed(users) && EmailsUnique(users) && newId !in users
    requires Register(users, newId, req, encode).result.Ok?
    ensures var after := Register(users, newId, req, encode).after;
      UsersKeyed(after) && EmailsUnique(after) && Login(after, req.email, generateToken) == Ok(generateToken(req.email))
  {
    var after := Register(users, newId, req, encode).after;
    assert after[newId].email == req.email;
  }
}
