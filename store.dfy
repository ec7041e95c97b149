// The two repositories seen as keyed tables: the derived queries the services
// call (existsBy..., findBy..., findAllByOrderByIdAsc) as functions of a
// table, and the integrity facts the store keeps.
module Store {
  import opened Entities
  import opened Lists

  /** Both tables at once, for the operations that touch both. */
  datatype Db = Db(users: Users, products: Products)

  /** Every row is stored under its own id. */
  ghost predicate UsersKeyed(users: Users)
  {
    forall k :: k in users ==> users[k].id == k
  }

  ghost predicate ProductsKeyed(products: Products)
  {
    forall k :: k in products ==> products[k].id == k
  }

  /** No two users share an email address. */
  ghost predicate EmailsUnique(users: Users)
  {
    forall a, b :: a in users && b in users && users[a].email == users[b].email ==> a == b
  }

  /** No two products share a name (compared exactly). */
  ghost predicate NamesUnique(products: Products)
  {
    forall a, b :: a in products && b in products && products[a].name == products[b].name ==> a == b
  }

  /** No role is listed twice for one user. */
  ghost predicate RolesDistinct(users: Users)
  {
    forall k :: k in users ==> NoDuplicates(users[k].roles)
  }

  /** No association is listed twice, on either side. */
  ghost predicate AssociationsDistinct(db: Db)
  {
    && (forall k :: k in db.users ==> NoDuplicates(db.users[k].products))
    && (forall k :: k in db.products ==> NoDuplicates(db.products[k].users))
  }

  /** The two sides of the many-to-many association agree on every pair of
      rows that are both present. */
  ghost predicate AssociationsSymmetric(db: Db)
  {
    forall u, p :: u in db.users && p in db.products ==>
      (p in db.users[u].products <==> u in db.products[p].users)
  }

  /** Everything the user service relies on. */
  ghost predicate Invariant(db: Db)
  {
    && UsersKeyed(db.users)
    && ProductsKeyed(db.products)
    && EmailsUnique(db.users)
    && NamesUnique(db.products)
    && RolesDistinct(db.users)
    && AssociationsDistinct(db)
    && AssociationsSymmetric(db)
  }

  /** Only the row under `id` may differ between the two tables. */
  ghost predicate OthersUnchanged<V>(before: map<nat, V>, after: map<nat, V>, id: nat)
  {
    after.Keys == before.Keys && forall k :: k in before && k != id ==> after[k] == before[k]
  }

  /** existsByEmail. */
  predicate ExistsByEmail(users: Users, email: string)
  {
    exists k | k in users :: users[k].email == email
  }

  /** existsByEmailAndIdNot: some user other than `id` has the email. */
  predicate ExistsByEmailAndIdNot(users: Users, email: string, id: UserId)
    ensures ExistsByEmailAndIdNot(users, email, id) ==> ExistsByEmail(users, email)
    ensures UsersKeyed(users) && id !in users ==> (ExistsByEmailAndIdNot(users, email, id) <==> ExistsByEmail(users, email))
  {
    exists k | k in users :: users[k].email == email && users[k].id != id
  }

  /** existsByName. */
  predicate ExistsByName(products: Products, name: string)
  {
    exists k | k in products :: products[k].name == name
  }

  /** existsByNameAndIdNot: some product other than `id` has the name. */
  predicate ExistsByNameAndIdNot(products: Products, name: string, id: ProductId)
    ensures ExistsByNameAndIdNot(products, name, id) ==> ExistsByName(products, name)
    ensures ProductsKeyed(products) && id !in products ==> (ExistsByNameAndIdNot(products, name, id) <==> ExistsByName(products, name))
  {
    exists k | k in products :: products[k].name == name && products[k].id != id
  }

  /** findByEmail. A derived single-result query fails on more than one
      match, so it is only asked of a table whose emails are unique. */
  function FindByEmail(users: Users, email: string): (r: Option<User>)
    requires UsersKeyed(users) && EmailsUnique(users)
    ensures r.Some? <==> ExistsByEmail(users, email)
    ensures r.Some? ==> r.value.email == email && r.value.id in users && users[r.value.id] == r.value
  {
    if ExistsByEmail(users, email) then
      var k :| k in users && users[k].email == email;
      Some(users[k])
    else
      None
  }

  /** findByName, under the same single-result condition. */
  function FindByName(products: Products, name: string): (r: Option<Product>)
    requires ProductsKeyed(products) && NamesUnique(products)
    ensures r.Some? <==> ExistsByName(products, name)
    ensures r.Some? ==> r.value.name == name && r.value.id in products && products[r.value.id] == r.value
  {
    if ExistsByName(products, name) then
      var k :| k in products && products[k].name == name;
      Some(products[k])
    else
      None
  }

  /** A non-empty set of ids has a least element, found by taking any
      element out and comparing it with the least of the others. */
  lemma {:induction false} LeastWitness(ids: set<nat>) returns (m: nat)
    requires ids != {}
    ensures m in ids && forall k :: k in ids ==> m <= k
    decreases |ids|
  {
    var x :| x in ids;
    var rest := ids - {x};
    if rest == {} {
      m := x;
      assert ids == {x};
    } else {
      assert |rest| < |ids|;
      var n := LeastWitness(rest);
      m := if x < n then x else n;
      forall k | k in ids ensures m <= k {
        if k != x { assert k in rest; }
      }
    }
  }

  lemma LeastExists(ids: set<nat>)
    requires ids != {}
    ensures exists m :: m in ids && forall k :: k in ids ==> m <= k
  {
    var m := LeastWitness(ids);
  }

  /** The smallest of a non-empty set of ids. */
  function Least(ids: set<nat>): (m: nat)
    requires ids != {}
    ensures m in ids && forall k :: k in ids ==> m <= k
  {
    LeastExists(ids);
    var m :| m in ids && forall k :: k in ids ==> m <= k;
    m
  }

  /** The ids of a table in ascending order (ORDER BY id ASC): each id
      exactly once, nothing else. */
  function SortedIds(ids: set<nat>): (r: seq<nat>)
    ensures |r| == |ids|
    ensures forall i, j :: 0 <= i < j < |r| ==> r[i] < r[j]
    ensures forall i :: 0 <= i < |r| ==> r[i] in ids
    ensures forall k :: k in ids ==> k in r
    decreases |ids|
  {
    if ids == {} then []
    else
      var m := Least(ids);
      var rest := ids - {m};
      assert |rest| == |ids| - 1;
      var tail := SortedIds(rest);
      assert forall j :: 0 <= j < |tail| ==> m < tail[j];
      [m] + tail
  }

  /** The rows stored under the given ids, in the same order. */
  function RowsOf(users: Users, ids: seq<nat>): (r: seq<User>)
    requires forall i :: 0 <= i < |ids| ==> ids[i] in users
    ensures |r| == |ids|
    ensures forall i :: 0 <= i < |r| ==> r[i] == users[ids[i]]
  {
    if ids == [] then [] else [users[ids[0]]] + RowsOf(users, ids[1..])
  }

  /** Listing the rows of a keyed table along its ascending ids lists each
      row once, in ascending id order. */
  lemma RowsOfSortedIds(users: Users, ids: seq<nat>)
    requires UsersKeyed(users)
    requires |ids| == |users.Keys|
    requires forall i, j :: 0 <= i < j < |ids| ==> ids[i] < ids[j]
    requires forall i :: 0 <= i < |ids| ==> ids[i] in users
    requires forall k :: k in users ==> k in ids
    ensures var r := RowsOf(users, ids);
      && |r| == |users|
      && (forall i, j :: 0 <= i < j < |r| ==> r[i].id < r[j].id)
      && (forall i :: 0 <= i < |r| ==> r[i].id in users && users[r[i].id] == r[i])
      && (forall k :: k in users ==> exists i :: 0 <= i < |r| && r[i].id == k)
  {
    var r := RowsOf(users, ids);
    assert |users.Keys| == |users|;
    forall i | 0 <= i < |r| ensures r[i].id == ids[i] && r[i].id in users && users[r[i].id] == r[i] {
      assert r[i] == users[ids[i]];
    }
    forall i, j | 0 <= i < j < |r| ensures r[i].id < r[j].id {
      assert r[i].id == ids[i] && r[j].id == ids[j];
    }
    forall k | k in users ensures exists i :: 0 <= i < |r| && r[i].id == k {
      var i :| 0 <= i < |ids| && ids[i] == k;
      assert r[i].id == k;
    }
  }

  /** findAllByOrderByIdAsc: every row, in ascending id order. */
  function FindAllByOrderByIdAsc(users: Users): (r: seq<User>)
    requires UsersKeyed(users)
    ensures |r| == |users|
    ensures forall i, j :: 0 <= i < j < |r| ==> r[i].id < r[j].id
    ensures forall i :: 0 <= i < |r| ==> r[i].id in users && users[r[i].id] == r[i]
    ensures forall k :: k in users ==> exists i :: 0 <= i < |r| && r[i].id == k
  {
    var ids := SortedIds(users.Keys);
    RowsOfSortedIds(users, ids);
    RowsOf(users, ids)
  }
}
