// The three services as objects over the repositories they are given. Each
// write operation runs the source's steps in order (look up, test, change
// the loaded copy, save) and is proved to leave the tables exactly as the
// matching rule of UserRules, ProductRules or AuthRules says, and to keep
// the facts the service relies on.
module Services {
  import opened Entities
  import opened Strings
  import opened Lists
  import opened Store
  import opened Repositories
  import Messages
  import UserRules
  import ProductRules
  import AuthRules

  class UserService {
    const userRepository: UserRepository
    const productRepository: ProductRepository

    /** Both tables are well formed and consistent with each other. */
    ghost predicate Valid()
      reads this, userRepository, productRepository
    {
      && userRepository.Valid()
      && productRepository.Valid()
      && Invariant(State())
    }

    /** The two tables the service works on. */
    ghost function State(): Db
      reads this, userRepository, productRepository
    {
      Db(userRepository.rows, productRepository.rows)
    }

    constructor(userRepository: UserRepository, productRepository: ProductRepository)
      requires userRepository.Valid() && productRepository.Valid()
      requires Invariant(Db(userRepository.rows, productRepository.rows))
      ensures Valid()
      ensures this.userRepository == userRepository && this.productRepository == productRepository
    {
      this.userRepository := userRepository;
      this.productRepository := productRepository;
    }

    /** updateUserField on a row loaded from the user table. */
    method UpdateUserField(user: User, req: UserUpdateRequest) returns (r: Result<UserResponse>)
      requires userRepository.Valid() && user.id in userRepository.rows
      modifies userRepository
      ensures userRepository.Valid() && userRepository.nextId == old(userRepository.nextId)
      ensures var s := UserRules.UpdateUserField(old(userRepository.rows), user, req);
        r == s.result && userRepository.rows == s.after
    {
      var loaded := user;
      if UserRules.TakesUsername(loaded, req) {
        loaded := loaded.(username := req.username.value);
      }
      if UserRules.TakesEmail(loaded, req) {
        if ExistsByEmailAndIdNot(userRepository.rows, req.email.value, loaded.id) {
          return Err(Conflict(Messages.FieldInUseAsWritten("email", req.email.value)));
        }
        loaded := loaded.(email := req.email.value);
      }
      userRepository.Save(loaded);
      r := Ok(UserResponseOf(loaded));
    }

    /** updateUser. */
    method UpdateUser(id: UserId, req: UserUpdateRequest) returns (r: Result<UserResponse>)
      requires Valid()
      modifies userRepository
      ensures Valid() && userRepository.nextId == old(userRepository.nextId)
      ensures var s := UserRules.UpdateUser(old(userRepository.rows), id, req);
        r == s.result && userRepository.rows == s.after
    {
      if id !in userRepository.rows {
        return Err(NotFound(UserResource));
      }
      ghost var before := State();
      var user := userRepository.rows[id];
      r := UpdateUserField(user, req);
      UserRules.UpdateUserKeepsInvariant(before, id, req);
    }

    /** updateMe: the caller is looked up by email, then updated by id. */
    method UpdateMe(currentUserEmail: string, req: UserUpdateRequest) returns (r: Result<UserResponse>)
      requires Valid()
      modifies userRepository
      ensures Valid() && userRepository.nextId == old(userRepository.nextId)
      ensures var s := UserRules.UpdateMe(old(userRepository.rows), currentUserEmail, req);
        r == s.result && userRepository.rows == s.after
    {
      var found := FindByEmail(userRepository.rows, currentUserEmail);
      if found.None? {
        return Err(NotFound(UserResource));
      }
      r := UpdateUser(found.value.id, req);
    }

    /** addProductForUser. */
    method AddProductForUser(userId: UserId, productId: ProductId) returns (r: Result<UserResponse>)
      requires Valid()
      modifies userRepository, productRepository
      ensures Valid()
      ensures userRepository.nextId == old(userRepository.nextId)
      ensures productRepository.nextId == old(productRepository.nextId)
      ensures var s := UserRules.AddProductForUser(old(State()), userId, productId);
        r == s.result && State() == s.after
    {
      ghost var before := State();
      if userId !in userRepository.rows {
        return Err(NotFound(UserResource));
      }
      var user := userRepository.rows[userId];
      if productId !in productRepository.rows {
        return Err(NotFound(ProductResource));
      }
      var product := productRepository.rows[productId];
      if product.id in user.products {
        return Err(Conflict(Messages.AlreadyHas(user.username, product.name)));
      }
      user := user.(products := user.products + [product.id]);
      product := product.(users := product.users + [user.id]);
      userRepository.Save(user);
      productRepository.Save(product);
      r := Ok(UserResponseOf(user));
      UserRules.AddProductForUserKeepsInvariant(before, userId, productId);
    }

    /** removeProductFromUser. */
    method RemoveProductFromUser(userId: UserId, productId: ProductId) returns (r: Result<UserResponse>)
      requires Valid()
      modifies userRepository, productRepository
      ensures Valid()
      ensures userRepository.nextId == old(userRepository.nextId)
      ensures productRepository.nextId == old(productRepository.nextId)
      ensures var s := UserRules.RemoveProductFromUser(old(State()), userId, productId);
        r == s.result && State() == s.after
    {
      ghost var before := State();
      if userId !in userRepository.rows {
        return Err(NotFound(UserResource));
      }
      var user := userRepository.rows[userId];
      if productId !in productRepository.rows {
        return Err(NotFound(ProductResource));
      }
      var product := productRepository.rows[productId];
      if product.id !in user.products {
        return Err(Conflict(Messages.DoesNotHave(user.username, product.name)));
      }
      user := user.(products := RemoveFirst(user.products, product.id));
      product := product.(users := RemoveFirst(product.users, user.id));
      userRepository.Save(user);
      productRepository.Save(product);
      r := Ok(UserResponseOf(user));
      UserRules.RemoveProductFromUserKeepsInvariant(before, userId, productId);
    }

    /** promoteToAdmin. */
    method PromoteToAdmin(id: UserId) returns (r: Result<UserResponse>)
      requires Valid()
      modifies userRepository
      ensures Valid() && userRepository.nextId == old(userRepository.nextId)
      ensures var s := UserRules.PromoteToAdmin(old(userRepository.rows), id);
        r == s.result && userRepository.rows == s.after
    {
      ghost var before := State();
      if id !in userRepository.rows {
        return Err(NotFound(UserResource));
      }
      var user := userRepository.rows[id];
      if ADMIN in user.roles {
        return Err(Conflict(Messages.AlreadyAdmin));
      }
      user := user.(roles := user.roles + [ADMIN]);
      userRepository.Save(user);
      r := Ok(UserResponseOf(user));
      UserRules.PromoteToAdminKeepsInvariant(before, id);
    }

    /** removeFromAdmin. */
    method RemoveFromAdmin(id: UserId) returns (r: Result<UserResponse>)
      requires Valid()
      modifies userRepository
      ensures Valid() && userRepository.nextId == old(userRepository.nextId)
      ensures var s := UserRules.RemoveFromAdmin(old(userRepository.rows), id);
        r == s.result && userRepository.rows == s.after
    {
      ghost var before := State();
      if id !in userRepository.rows {
        return Err(NotFound(UserResource));
      }
      var user := userRepository.rows[id];
      if ADMIN !in user.roles {
        return Err(Conflict(Messages.NotAdmin));
      }
      user := user.(roles := RemoveFirst(user.roles, ADMIN));
      userRepository.Save(user);
      r := Ok(UserResponseOf(user));
      UserRules.RemoveFromAdminKeepsInvariant(before, id);
    }

    /** removeUser. */
    method RemoveUser(id: UserId) returns (r: Result<()>)
      requires Valid()
      modifies userRepository
      ensures Valid() && userRepository.nextId == old(userRepository.nextId)
      ensures var s := UserRules.RemoveUser(old(userRepository.rows), id);
        r == s.result && userRepository.rows == s.after
    {
      ghost var before := State();
      if id !in userRepository.rows {
        return Err(NotFound(UserResource));
      }
      userRepository.DeleteById(id);
      r := Ok(());
      UserRules.RemoveUserKeepsInvariant(before, id);
    }

    /** removeMe: the existence test, then the lookup, then removeUser. */
    method RemoveMe(currentUserEmail: string) returns (r: Result<()>)
      requires Valid()
      modifies userRepository
      ensures Valid() && userRepository.nextId == old(userRepository.nextId)
      ensures var s := UserRules.RemoveMe(old(userRepository.rows), currentUserEmail);
        r == s.result && userRepository.rows == s.after
    {
      if !ExistsByEmail(userRepository.rows, currentUserEmail) {
        return Err(NotFound(UserResource));
      }
      var user := FindByEmail(userRepository.rows, currentUserEmail).value;
      r := RemoveUser(user.id);
    }
  }

  class ProductService {
    const productRepository: ProductRepository

    /** The product table is well formed and its names are unique. */
    ghost predicate Valid()
      reads this, productRepository
    {
      productRepository.Valid() && NamesUnique(productRepository.rows)
    }

    constructor(productRepository: ProductRepository)
      requires productRepository.Valid() && NamesUnique(productRepository.rows)
      ensures Valid() && this.productRepository == productRepository
    {
      this.productRepository := productRepository;
    }

    /** saveProduct: the identity column supplies the id. */
    method SaveProduct(req: ProductRequest) returns (r: Result<ProductResponse>)
      requires Valid()
      modifies productRepository
      ensures Valid()
      ensures var s := ProductRules.SaveProduct(old(productRepository.rows), old(productRepository.nextId), req);
        r == s.result && productRepository.rows == s.after
      ensures productRepository.nextId == old(productRepository.nextId) + (if r.Ok? then 1 else 0)
    {
      if ExistsByName(productRepository.rows, req.name) {
        return Err(Conflict(Messages.FieldInUseAsWritten("name", req.name)));
      }
      ghost var before := productRepository.rows;
      ghost var newId := productRepository.nextId;
      var saved := productRepository.Insert(Product(0, req.name, req.price, []));
      r := Ok(ProductResponseOf(saved));
      ProductRules.SaveProductKeepsNamesUnique(before, newId, req);
    }

    /** updateField on a row loaded from the product table. */
    method UpdateField(product: Product, req: ProductUpdateRequest) returns (r: Result<ProductResponse>)
      requires productRepository.Valid() && product.id in productRepository.rows
      modifies productRepository
      ensures productRepository.Valid() && productRepository.nextId == old(productRepository.nextId)
      ensures var s := ProductRules.UpdateField(old(productRepository.rows), product, req);
        r == s.result && productRepository.rows == s.after
    {
      var loaded := product;
      if ProductRules.TakesName(loaded, req) {
        if ExistsByNameAndIdNot(productRepository.rows, req.name.value, loaded.id) {
          return Err(Conflict(Messages.FieldInUseAsWritten("name", req.name.value)));
        }
        loaded := loaded.(name := req.name.value);
      }
      if ProductRules.TakesPrice(loaded, req) {
        loaded := loaded.(price := req.price.value);
      }
      productRepository.Save(loaded);
      r := Ok(ProductResponseOf(loaded));
    }

    /** updateProduct. */
    method UpdateProduct(id: ProductId, req: ProductUpdateRequest) returns (r: Result<ProductResponse>)
      requires Valid()
      modifies productRepository
      ensures Valid() && productRepository.nextId == old(productRepository.nextId)
      ensures var s := ProductRules.UpdateProduct(old(productRepository.rows), id, req);
        r == s.result && productRepository.rows == s.after
    {
      if id !in productRepository.rows {
        return Err(NotFound(ProductResource));
      }
      ghost var before := productRepository.rows;
      var product := productRepository.rows[id];
      r := UpdateField(product, req);
      ProductRules.UpdateProductKeepsNamesUnique(before, id, req);
    }

    /** removeProductById. */
    method RemoveProductById(id: ProductId) returns (r: Result<()>)
      requires Valid()
      modifies productRepository
      ensures Valid() && productRepository.nextId == old(productRepository.nextId)
      ensures var s := ProductRules.RemoveProductById(old(productRepository.rows), id);
        r == s.result && productRepository.rows == s.after
    {
      if id !in productRepository.rows {
        return Err(NotFound(ProductResource));
      }
      productRepository.DeleteById(id);
      r := Ok(());
    }
  }

  class AuthService {
    const userRepository: UserRepository
    /** PasswordEncoder.encode. */
    const encode: string -> string

    /** The user table is well formed and its emails are unique. */
    ghost predicate Valid()
      reads this, userRepository
    {
      userRepository.Valid() && EmailsUnique(userRepository.rows)
    }

    constructor(userRepository: UserRepository, encode: string -> string)
      requires userRepository.Valid() && EmailsUnique(userRepository.rows)
      ensures Valid() && this.userRepository == userRepository && this.encode == encode
    {
      this.userRepository := userRepository;
      this.encode := encode;
    }

    /** register: the identity column supplies the id. */
    method Register(req: UserRequest) returns (r: Result<UserResponse>)
      requires Valid()
      modifies userRepository
      ensures Valid()
      ensures var s := AuthRules.Register(old(userRepository.rows), old(userRepository.nextId), req, encode);
        r == s.result && userRepository.rows == s.after
      ensures userRepository.nextId == old(userRepository.nextId) + (if r.Ok? then 1 else 0)
    {
      if ExistsByEmail(userRepository.rows, req.email) {
        return Err(Conflict(Messages.FieldInUseAsWritten("email", req.email)));
      }
      var user := User(0, req.username, req.email, req.password, [], []);
      user := user.(roles := user.roles + [USER]);
      user := user.(password := encode(user.password));
      var saved := userRepository.Insert(user);
      r := Ok(UserResponseOf(saved));
    }
  }
}
