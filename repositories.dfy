// The two Spring Data repositories as mutable tables. Only the writes are
// methods here; the derived queries are the functions of module Store,
// applied to `rows`.
module Repositories {
  import opened Entities
  import opened Store

  /** UserRepository: the user table and its identity counter. */
  class UserRepository {
    var rows: Users
    var nextId: UserId

    /** Every row sits under its own id, and the counter is past every id. */
    ghost predicate Valid()
      reads this
    {
      UsersKeyed(rows) && 1 <= nextId && forall k :: k in rows ==> k < nextId
    }

    /** An empty table; the identity column starts at 1. */
    constructor()
      ensures Valid() && rows == map[] && nextId == 1
    {
      rows := map[];
      nextId := 1;
    }

    /** save of a row loaded from this table: it replaces the stored row. */
    method Save(user: User)
      requires Valid() && user.id in rows
      modifies this
      ensures Valid()
      ensures rows == old(rows)[user.id := user] && nextId == old(nextId)
    {
      rows := rows[user.id := user];
    }

    /** save of a new entity: it is stored under the next generated id,
        which no row had. */
    method Insert(user: User) returns (saved: User)
      requires Valid()
      modifies this
      ensures Valid()
      ensures old(nextId) !in old(rows)
      ensures saved == user.(id := old(nextId))
      ensures rows == old(rows)[saved.id := saved] && nextId == old(nextId) + 1
    {
      saved := user.(id := nextId);
      rows := rows[nextId := saved];
      nextId := nextId + 1;
    }

    /** deleteById: the row under `id` is gone, every other row stays. */
    method DeleteById(id: UserId)
      requires Valid()
      modifies this
      ensures Valid()
      ensures rows == old(rows) - {id} && nextId == old(nextId)
    {
      rows := rows - {id};
    }
  }

  /** ProductRepository: the product table and its identity counter. */
  class ProductRepository {
    var rows: Products
    var nextId: ProductId

    ghost predicate Valid()
      reads this
    {
      ProductsKeyed(rows) && 1 <= nextId && forall k :: k in rows ==> k < nextId
    }

    constructor()
      ensures Valid() && rows == map[] && nextId == 1
    {
      rows := map[];
      nextId := 1;
    }

    method Save(product: Product)
      requires Valid() && product.id in rows
      modifies this
      ensures Valid()
      ensures rows == old(rows)[product.id := product] && nextId == old(nextId)
    {
      rows := rows[product.id := product];
    }

    method Insert(product: Product) returns (saved: Product)
      requires Valid()
      modifies this
      ensures Valid()
      ensures old(nextId) !in old(rows)
      ensures saved == product.(id := old(nextId))
      ensures rows == old(rows)[saved.id := saved] && nextId == old(nextId) + 1
    {
      saved := product.(id := nextId);
      rows := rows[nextId := saved];
      nextId := nextId + 1;
    }

    method DeleteById(id: ProductId)
      requires Valid()
      modifies this
      ensures Valid()
      ensures rows == old(rows) - {id} && nextId == old(nextId)
    {
      rows := rows - {id};
    }
  }
}
