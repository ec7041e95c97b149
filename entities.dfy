// The persisted rows of the user/product catalogue, the request and response
// shapes the services exchange with their callers, and the two domain failures.
module Entities {

  /** Identifiers generated by the store (identity columns, starting at 1). */
  type UserId = nat
  type ProductId = nat

  /** A product price. The entity holds a Double that the services only store
      and compare with equals, never compute with, so an int stands for it. */
  type Price = int

  /** A Java reference that may be null. */
  datatype Option<T> = None | Some(value: T)

  datatype Role = USER | ADMIN

  /** A user row. `products` is the user's side of the many-to-many
      association, kept as the ids of the associated products in list order. */
  datatype User = User(
    id: UserId,
    username: string,
    email: string,
    password: string,
    roles: seq<Role>,
    products: seq<ProductId>)

  /** A product row. `users` is the product's side of the association. */
  datatype Product = Product(id: ProductId, name: string, price: Price, users: seq<UserId>)

  /** The two tables, keyed by id. */
  type Users = map<UserId, User>
  type Products = map<ProductId, Product>

  /** UserResponseDTO: what the user operations hand back (no password). */
  datatype UserResponse = UserResponse(id: UserId, username: string, email: string, roles: seq<Role>)

  /** ProductResponseDTO: the product and the ids of its users. */
  datatype ProductResponse = ProductResponse(id: ProductId, name: string, price: Price, users: seq<UserId>)

  /** The DTO copies id, username, email and roles, and leaves out the
      password and the product list. */
  function UserResponseOf(u: User): (r: UserResponse)
  {
    UserResponse(u.id, u.username, u.email, u.roles)
  }

  /** The user response depends neither on the password nor on the
      product list. */
  lemma UserResponseIgnoresPrivateFields(u: User, password: string, products: seq<ProductId>)
    ensures UserResponseOf(u.(password := password, products := products)) == UserResponseOf(u)
  {
  }

  /** The DTO copies every field of the product. */
  function ProductResponseOf(p: Product): (r: ProductResponse)
  {
    ProductResponse(p.id, p.name, p.price, p.users)
  }

  /** The product response loses nothing: two products with the same
      response are the same product. */
  lemma ProductResponseDeterminesProduct(p: Product, q: Product)
    ensures ProductResponseOf(p) == ProductResponseOf(q) <==> p == q
  {
  }

  /** UserRequestDTO, the registration form. */
  datatype UserRequest = UserRequest(username: string, email: string, password: string)

  /** UserUpdateRequestDTO: every field may be null. */
  datatype UserUpdateRequest = UserUpdateRequest(username: Option<string>, email: Option<string>)

  /** ProductRequestDTO, the creation form. */
  datatype ProductRequest = ProductRequest(name: string, price: Price)

  /** ProductUpdateRequestDTO: every field may be null. */
  datatype ProductUpdateRequest = ProductUpdateRequest(name: Option<string>, price: Option<Price>)

  /** Which lookup failed. */
  datatype Resource = UserResource | ProductResource

  /** ResourceNotFoundException and ConflictException. */
  datatype Error = NotFound(resource: Resource) | Conflict(message: string)

  /** A reply, or the exception the operation throws. */
  datatype Result<T> = Ok(value: T) | Err(error: Error)

  /** The reply of an operation together with the table it leaves behind. */
  datatype Step<T, S> = Step(result: Result<T>, after: S)
}
