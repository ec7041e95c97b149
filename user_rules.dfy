// The business rules of UserService as functions of the tables: each
// operation gives its reply (or the exception it throws) and the tables it
// leaves behind. Services.UserService runs the same rules step by step.
module UserRules {
  import opened Entities
  import opened Strings
  import opened Lists
  import opened Store
  import Messages

  /** The responses of a list of rows, in the same order. */
  function Responses(rows: seq<User>): (r: seq<UserResponse>)
    ensures |r| == |rows|
    ensures forall i :: 0 <= i < |r| ==> r[i] == UserResponseOf(rows[i])
  {
    if rows == [] then [] else [UserResponseOf(rows[0])] + Responses(rows[1..])
  }

  /** getAllUsers: one response per stored user, in ascending id order. */
  function GetAllUsers(users: Users): (r: seq<UserResponse>)
    requires UsersKeyed(users)
    ensures |r| == |users|
    ensures forall i, j :: 0 <= i < j < |r| ==> r[i].id < r[j].id
    ensures forall i :: 0 <= i < |r| ==> r[i].id in users && r[i] == UserResponseOf(users[r[i].id])
    ensures forall k :: k in users ==> exists i :: 0 <= i < |r| && r[i].id == k
  {
    var rows := FindAllByOrderByIdAsc(users);
    ResponsesOfRows(users, rows);
    Responses(rows)
  }

  lemma ResponsesOfRows(users: Users, rows: seq<User>)
    requires |rows| == |users|
    requires forall i, j :: 0 <= i < j < |rows| ==> rows[i].id < rows[j].id
    requires forall i :: 0 <= i < |rows| ==> rows[i].id in users && users[rows[i].id] == rows[i]
    requires forall k :: k in users ==> exists i :: 0 <= i < |rows| && rows[i].id == k
    ensures var r := Responses(rows);
      && (forall i, j :: 0 <= i < j < |r| ==> r[i].id < r[j].id)
      && (forall i :: 0 <= i < |r| ==> r[i].id in users && r[i] == UserResponseOf(users[r[i].id]))
      && (forall k :: k in users ==> exists i :: 0 <= i < |r| && r[i].id == k)
  {
    var r := Responses(rows);
    forall i, j | 0 <= i < j < |r| ensures r[i].id < r[j].id {
      assert r[i].id == rows[i].id && r[j].id == rows[j].id;
    }
    forall i | 0 <= i < |r| ensures r[i].id in users && r[i] == UserResponseOf(users[r[i].id]) {
      assert r[i] == UserResponseOf(rows[i]);
    }
    forall k | k in users ensures exists i :: 0 <= i < |r| && r[i].id == k {
      var i :| 0 <= i < |rows| && rows[i].id == k;
      assert r[i] == UserResponseOf(rows[i]);
    }
  }

  /** findUserById: the response of the stored row, or NotFound. */
  function FindUserById(users: Users, id: UserId): (r: Result<UserResponse>)
    ensures r.Ok? <==> id in users
    ensures r.Err? ==> r.error == NotFound(UserResource)
    ensures r.Ok? ==> r.value == UserResponseOf(users[id])
  {
    if id in users then Ok(UserResponseOf(users[id])) else Err(NotFound(UserResource))
  }

  /** The username test of updateUserField: a non-null, non-empty name that
      does not contain the current username as a substring. */
  predicate TakesUsername(user: User, req: UserUpdateRequest)
    ensures TakesUsername(user, req) ==> req.username.Some? && req.username.value != user.username && |req.username.value| > 0
  {
    req.username.Some? && req.username.value != "" && !Contains(req.username.value, user.username)
  }

  /** The email test: a non-null, non-empty address that does not contain
      the current address as a substring. */
  predicate TakesEmail(user: User, req: UserUpdateRequest)
    ensures TakesEmail(user, req) ==> req.email.Some? && req.email.value != user.email && |req.email.value| > 0
  {
    req.email.Some? && req.email.value != "" && !Contains(req.email.value, user.email)
  }

  /** The new address passes the email test but another user holds it. */
  predicate EmailTaken(users: Users, user: User, req: UserUpdateRequest)
  {
    TakesEmail(user, req) && ExistsByEmailAndIdNot(users, req.email.value, user.id)
  }

  /** The row `after` is `before` with the requested fields applied: each
      field changes exactly when its test passes, nothing else changes. */
  predicate Applied(before: User, after: User, req: UserUpdateRequest)
  {
    && after.id == before.id
    && after.password == before.password
    && after.roles == before.roles
    && after.products == before.products
    && after.username == (if TakesUsername(before, req) then req.username.value else before.username)
    && after.email == (if TakesEmail(before, req) then req.email.value else before.email)
  }

  /** updateUserField on a loaded row. The username is set on the loaded copy
      first; a conflict on the email throws before save, so the table is
      left as it was. */
  function UpdateUserField(users: Users, user: User, req: UserUpdateRequest): (s: Step<UserResponse, Users>)
    ensures s.result.Err? <==> EmailTaken(users, user, req)
    ensures s.result.Err? ==> s.after == users
    ensures s.result.Err? ==> s.result.error.Conflict? && Contains(s.result.error.message, "email")
  {
    var named := if TakesUsername(user, req) then user.(username := req.username.value) else user;
    if TakesEmail(named, req) && ExistsByEmailAndIdNot(users, req.email.value, named.id) then
      Step(Err(Conflict(Messages.FieldInUseAsWritten("email", req.email.value))), users)
    else
      var updated := if TakesEmail(named, req) then named.(email := req.email.value) else named;
      Step(Ok(UserResponseOf(updated)), users[updated.id := updated])
  }

  /** updateUser: NotFound for an unknown id; Conflict, with nothing stored,
      when the new email belongs to another user; otherwise the row with the
      requested fields applied, and no other row touched. */
  function UpdateUser(users: Users, id: UserId, req: UserUpdateRequest): (s: Step<UserResponse, Users>)
    requires UsersKeyed(users)
    ensures id !in users ==> s == Step(Err(NotFound(UserResource)), users)
    ensures s.result.Err? ==> s.after == users
    ensures id in users ==> (s.result.Err? <==> EmailTaken(users, users[id], req))
    ensures id in users && s.result.Err? ==>
      s.result.error == Conflict(Messages.FieldInUseAsWritten("email", req.email.value))
    ensures s.result.Ok? ==>
      && id in users
      && OthersUnchanged(users, s.after, id)
      && Applied(users[id], s.after[id], req)
      && s.result.value == UserResponseOf(s.after[id])
  {
    if id !in users then Step(Err(NotFound(UserResource)), users)
    else UpdateUserField(users, users[id], req)
  }

  /** updateMe: the user is found by the caller's email, then updated by id. */
  function UpdateMe(users: Users, email: string, req: UserUpdateRequest): (s: Step<UserResponse, Users>)
    requires UsersKeyed(users) && EmailsUnique(users)
    ensures !ExistsByEmail(users, email) ==> s == Step(Err(NotFound(UserResource)), users)
    ensures ExistsByEmail(users, email) ==>
      exists k :: k in users && users[k].email == email && s == UpdateUser(users, k, req)
  {
    match FindByEmail(users, email)
    case None => Step(Err(NotFound(UserResource)), users)
    case Some(user) => UpdateUser(users, user.id, req)
  }

  /** addProductForUser. The user is looked up before the product; an
      association already on the user's list is a conflict; otherwise the
      product is appended to the user's list and the user to the product's. */
  function AddProductForUser(db: Db, userId: UserId, productId: ProductId): (s: Step<UserResponse, Db>)
    requires UsersKeyed(db.users) && ProductsKeyed(db.products)
    ensures userId !in db.users ==> s == Step(Err(NotFound(UserResource)), db)
    ensures userId in db.users && productId !in db.products ==> s == Step(Err(NotFound(ProductResource)), db)
    ensures s.result.Ok? <==>
      userId in db.users && productId in db.products && productId !in db.users[userId].products
    ensures s.result.Err? ==> s.after == db
    ensures userId in db.users && productId in db.products && s.result.Err? ==>
      s.result.error == Conflict(Messages.AlreadyHas(db.users[userId].username, db.products[productId].name))
    ensures s.result.Err? && s.result.error.Conflict? ==>
      Contains(s.result.error.message, db.products[productId].name)
    ensures s.result.Ok? ==>
      && s.after.users == db.users[userId := db.users[userId].(products := db.users[userId].products + [productId])]
      && s.after.products == db.products[productId := db.products[productId].(users := db.products[productId].users + [userId])]
      && s.result.value == UserResponseOf(s.after.users[userId])
  {
    if userId !in db.users then Step(Err(NotFound(UserResource)), db)
    else if productId !in db.products then Step(Err(NotFound(ProductResource)), db)
    else
      var user := db.users[userId];
      var product := db.products[productId];
      if product.id in user.products then
        Step(Err(Conflict(Messages.AlreadyHas(user.username, product.name))), db)
      else
        var user' := user.(products := user.products + [product.id]);
        var product' := product.(users := product.users + [user.id]);
        Step(Ok(UserResponseOf(user')), Db(db.users[user'.id := user'], db.products[product'.id := product']))
  }

  /** removeProductFromUser. Same lookups in the same order; an association
      not on the user's list is a conflict; otherwise the first occurrence is
      dropped from both lists. */
  function RemoveProductFromUser(db: Db, userId: UserId, productId: ProductId): (s: Step<UserResponse, Db>)
    requires UsersKeyed(db.users) && ProductsKeyed(db.products)
    ensures userId !in db.users ==> s == Step(Err(NotFound(UserResource)), db)
    ensures userId in db.users && productId !in db.products ==> s == Step(Err(NotFound(ProductResource)), db)
    ensures s.result.Ok? <==>
      userId in db.users && productId in db.products && productId in db.users[userId].products
    ensures s.result.Err? ==> s.after == db
    ensures userId in db.users && productId in db.products && s.result.Err? ==>
      s.result.error == Conflict(Messages.DoesNotHave(db.users[userId].username, db.products[productId].name))
    ensures s.result.Err? && s.result.error.Conflict? ==>
      Contains(s.result.error.message, db.products[productId].name)
    ensures s.result.Ok? ==>
      && s.after.users == db.users[userId := db.users[userId].(products := RemoveFirst(db.users[userId].products, productId))]
      && s.after.products == db.products[productId := db.products[productId].(users := RemoveFirst(db.products[productId].users, userId))]
      && s.result.value == UserResponseOf(s.after.users[userId])
  {
    if userId !in db.users then Step(Err(NotFound(UserResource)), db)
    else if productId !in db.products then Step(Err(NotFound(ProductResource)), db)
    else
      var user := db.users[userId];
      var product := db.products[productId];
      if product.id !in user.products then
        Step(Err(Conflict(Messages.DoesNotHave(user.username, product.name))), db)
      else
        var user' := user.(products := RemoveFirst(user.products, product.id));
        var product' := product.(users := RemoveFirst(product.users, user.id));
        Step(Ok(UserResponseOf(user')), Db(db.users[user'.id := user'], db.products[product'.id := product']))
  }

  /** promoteToAdmin: Conflict if ADMIN is already listed, else ADMIN appended. */
  function PromoteToAdmin(users: Users, id: UserId): (s: Step<UserResponse, Users>)
    requires UsersKeyed(users)
    ensures id !in users ==> s == Step(Err(NotFound(UserResource)), users)
    ensures s.result.Ok? <==> id in users && ADMIN !in users[id].roles
    ensures id in users && s.result.Err? ==> s.result.error == Conflict(Messages.AlreadyAdmin)
    ensures s.result.Err? ==> s.after == users
    ensures s.result.Ok? ==>
      && s.after == users[id := users[id].(roles := users[id].roles + [ADMIN])]
      && s.result.value == UserResponseOf(s.after[id])
  {
    if id !in users then Step(Err(NotFound(UserResource)), users)
    else
      var user := users[id];
      if ADMIN in user.roles then Step(Err(Conflict(Messages.AlreadyAdmin)), users)
      else
        var user' := user.(roles := user.roles + [ADMIN]);
        Step(Ok(UserResponseOf(user')), users[user'.id := user'])
  }

  /** removeFromAdmin: Conflict if ADMIN is not listed, else its first
      occurrence removed. */
  function RemoveFromAdmin(users: Users, id: UserId): (s: Step<UserResponse, Users>)
    requires UsersKeyed(users)
    ensures id !in users ==> s == Step(Err(NotFound(UserResource)), users)
    ensures s.result.Ok? <==> id in users && ADMIN in users[id].roles
    ensures id in users && s.result.Err? ==> s.result.error == Conflict(Messages.NotAdmin)
    ensures s.result.Err? ==> s.after == users
    ensures s.result.Ok? ==>
      && s.after == users[id := users[id].(roles := RemoveFirst(users[id].roles, ADMIN))]
      && s.result.value == UserResponseOf(s.after[id])
  {
    if id !in users then Step(Err(NotFound(UserResource)), users)
    else
      var user := users[id];
      if ADMIN !in user.roles then Step(Err(Conflict(Messages.NotAdmin)), users)
      else
        var user' := user.(roles := RemoveFirst(user.roles, ADMIN));
        Step(Ok(UserResponseOf(user')), users[user'.id := user'])
  }

  /** removeUser: NotFound for an unknown id, else exactly that row deleted. */
  function RemoveUser(users: Users, id: UserId): (s: Step<(), Users>)
    ensures s.result.Ok? <==> id in users
    ensures s.result.Err? ==> s == Step(Err(NotFound(UserResource)), users)
    ensures s.result.Ok? ==>
      s.after.Keys == users.Keys - {id} && forall k :: k in s.after ==> s.after[k] == users[k]
  {
    if id !in users then Step(Err(NotFound(UserResource)), users)
    else Step(Ok(()), users - {id})
  }

  /** removeMe: NotFound when no user has the email, else that user removed
      by id; afterwards no user has the email. */
  function RemoveMe(users: Users, email: string): (s: Step<(), Users>)
    requires UsersKeyed(users) && EmailsUnique(users)
    ensures s.result.Ok? <==> ExistsByEmail(users, email)
    ensures s.result.Err? ==> s == Step(Err(NotFound(UserResource)), users)
    ensures s.result.Ok? ==>
      exists k :: k in users && users[k].email == email && s.after == users - {k}
    ensures s.result.Ok? ==> !ExistsByEmail(s.after, email)
  {
    if !ExistsByEmail(users, email) then Step(Err(NotFound(UserResource)), users)
    else
      var user := FindByEmail(users, email).value;
      RemoveUser(users, user.id)
  }

  // ---------------------------------------------------------------------
  // What the rules preserve

  /** A change to the user table that keeps every user's product list keeps
      the association facts. */
  lemma SameProductLists(db: Db, users': Users)
    requires AssociationsDistinct(db) && AssociationsSymmetric(db)
    requires users'.Keys <= db.users.Keys
    requires forall k :: k in users' ==> users'[k].products == db.users[k].products
    ensures AssociationsDistinct(Db(users', db.products)) && AssociationsSymmetric(Db(users', db.products))
  {
  }

  lemma UpdateUserKeepsInvariant(db: Db, id: UserId, req: UserUpdateRequest)
    requires Invariant(db)
    ensures Invariant(Db(UpdateUser(db.users, id, req).after, db.products))
  {
    var s := UpdateUser(db.users, id, req);
    if s.result.Ok? {
      SameProductLists(db, s.after);
    }
  }

  lemma UpdateMeKeepsInvariant(db: Db, email: string, req: UserUpdateRequest)
    requires Invariant(db)
    ensures Invariant(Db(UpdateMe(db.users, email, req).after, db.products))
  {
    if ExistsByEmail(db.users, email) {
      var k :| k in db.users && db.users[k].email == email && UpdateMe(db.users, email, req) == UpdateUser(db.users, k, req);
      UpdateUserKeepsInvariant(db, k, req);
    }
  }

  lemma AddProductForUserKeepsInvariant(db: Db, userId: UserId, productId: ProductId)
    requires Invariant(db)
    ensures Invariant(AddProductForUser(db, userId, productId).after)
  {
    var s := AddProductForUser(db, userId, productId);
    if s.result.Ok? {
      var user, product := db.users[userId], db.products[productId];
      assert userId !in product.users;
      AppendDistinct(user.products, productId);
      AppendDistinct(product.users, userId);
      var after := s.after;
      forall u, p | u in after.users && p in after.products
        ensures p in after.users[u].products <==> u in after.products[p].users
      {
        assert p in db.users[u].products <==> u in db.products[p].users;
      }
    }
  }

  lemma RemoveProductFromUserKeepsInvariant(db: Db, userId: UserId, productId: ProductId)
    requires Invariant(db)
    ensures Invariant(RemoveProductFromUser(db, userId, productId).after)
  {
    var s := RemoveProductFromUser(db, userId, productId);
    if s.result.Ok? {
      var user, product := db.users[userId], db.products[productId];
      RemoveFirstOfDistinct(user.products, productId);
      RemoveFirstOfDistinct(product.users, userId);
      var after := s.after;
      forall u, p | u in after.users && p in after.products
        ensures p in after.users[u].products <==> u in after.products[p].users
      {
        assert p in db.users[u].products <==> u in db.products[p].users;
      }
    }
  }

  lemma PromoteToAdminKeepsInvariant(db: Db, id: UserId)
    requires Invariant(db)
    ensures Invariant(Db(PromoteToAdmin(db.users, id).after, db.products))
  {
    var s := PromoteToAdmin(db.users, id);
    if s.result.Ok? {
      AppendDistinct(db.users[id].roles, ADMIN);
      SameProductLists(db, s.after);
    }
  }

  lemma RemoveFromAdminKeepsInvariant(db: Db, id: UserId)
    requires Invariant(db)
    ensures Invariant(Db(RemoveFromAdmin(db.users, id).after, db.products))
  {
    var s := RemoveFromAdmin(db.users, id);
    if s.result.Ok? {
      RemoveFirstOfDistinct(db.users[id].roles, ADMIN);
      SameProductLists(db, s.after);
    }
  }

  lemma RemoveUserKeepsInvariant(db: Db, id: UserId)
    requires Invariant(db)
    ensures Invariant(Db(RemoveUser(db.users, id).after, db.products))
  {
    SameProductLists(db, RemoveUser(db.users, id).after);
  }

  lemma RemoveMeKeepsInvariant(db: Db, email: string)
    requires Invariant(db)
    ensures Invariant(Db(RemoveMe(db.users, email).after, db.products))
  {
    SameProductLists(db, RemoveMe(db.users, email).after);
  }

  // ---------------------------------------------------------------------
  // Round trips and consequences

  /** Promoting and then demoting a user gives back the original table, and
      the demotion replies with the user as it was. */
  lemma PromoteThenDemoteRestores(users: Users, id: UserId)
    requires UsersKeyed(users)
    requires PromoteToAdmin(users, id).result.Ok?
    ensures var promoted := PromoteToAdmin(users, id).after;
      RemoveFromAdmin(promoted, id) == Step(Ok(UserResponseOf(users[id])), users)
  {
    var user := users[id];
    RemoveFirstOfAppended(user.roles, ADMIN);
    var promoted := PromoteToAdmin(users, id).after;
    assert promoted[id].(roles := RemoveFirst(promoted[id].roles, ADMIN)) == user;
    assert promoted[id := user] == users;
  }

  /** With roles kept free of duplicates, a demoted user is no longer ADMIN. */
  lemma RemoveFromAdminRevokes(users: Users, id: UserId)
    requires UsersKeyed(users) && RolesDistinct(users)
    requires RemoveFromAdmin(users, id).result.Ok?
    ensures ADMIN !in RemoveFromAdmin(users, id).after[id].roles
  {
    RemoveFirstOfDistinct(users[id].roles, ADMIN);
  }

  /** Attaching and then detaching a product gives back the original tables,
      and the detachment replies with the user as it was. */
  lemma AddThenRemoveRestores(db: Db, userId: UserId, productId: ProductId)
    requires UsersKeyed(db.users) && ProductsKeyed(db.products) && AssociationsSymmetric(db)
    requires AddProductForUser(db, userId, productId).result.Ok?
    ensures var added := AddProductForUser(db, userId, productId).after;
      RemoveProductFromUser(added, userId, productId) == Step(Ok(UserResponseOf(db.users[userId])), db)
  {
    var user, product := db.users[userId], db.products[productId];
    assert userId !in product.users;
    var user' := user.(products := user.products + [productId]);
    var product' := product.(users := product.users + [userId]);
    var added := Db(db.users[userId := user'], db.products[productId := product']);
    assert AddProductForUser(db, userId, productId).after == added;
    RemoveFirstOfAppended(user.products, productId);
    RemoveFirstOfAppended(product.users, userId);
    var s := RemoveProductFromUser(added, userId, productId);
    assert s.result.Ok?;
    assert s.after.users == db.users[userId := user'][userId := user];
    assert s.after.products == db.products[productId := product'][productId := product];
    OverwriteRestores(db.users, userId, user');
    OverwriteRestores(db.products, productId, product');
  }

  /** Writing a key and then writing back its old value restores the map. */
  lemma OverwriteRestores<V>(m: map<nat, V>, k: nat, v: V)
    requires k in m
    ensures m[k := v][k := m[k]] == m
  {
  }

  /** A new username that contains the current one, such as the current name
      with something added around it, is silently not applied. */
  lemma UpdateUserIgnoresExtendedUsername(users: Users, id: UserId, before: string, after: string, req: UserUpdateRequest)
    requires UsersKeyed(users) && id in users
    requires req.username == Some(before + users[id].username + after)
    ensures UpdateUser(users, id, req).result.Ok? ==>
      UpdateUser(users, id, req).after[id].username == users[id].username
  {
    ContainsInfix(before, users[id].username, after);
  }

  /** Likewise an email address that contains the current one is neither
      checked nor applied, even when another user holds it. */
  lemma UpdateUserIgnoresExtendedEmail(users: Users, id: UserId, before: string, after: string, req: UserUpdateRequest)
    requires UsersKeyed(users) && id in users
    requires req.email == Some(before + users[id].email + after)
    ensures UpdateUser(users, id, req).result.Ok?
    ensures UpdateUser(users, id, req).after[id].email == users[id].email
  {
    ContainsInfix(before, users[id].email, after);
  }
}
