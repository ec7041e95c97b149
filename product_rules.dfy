// The business rules of ProductService as functions of the product table.
module ProductRules {
  import opened Entities
  import opened Strings
  import opened Store
  import Messages

  /** getProductById: the response of the stored row, or NotFound. */
  function GetProductById(products: Products, id: ProductId): (r: Result<ProductResponse>)
    ensures r.Ok? <==> id in products
    ensures r.Err? ==> r.error == NotFound(ProductResource)
    ensures r.Ok? ==> r.value == ProductResponseOf(products[id])
  {
    if id in products then Ok(ProductResponseOf(products[id])) else Err(NotFound(ProductResource))
  }

  /** getProductByName: the product whose name equals `name` exactly. */
  function GetProductByName(products: Products, name: string): (r: Result<ProductResponse>)
    requires ProductsKeyed(products) && NamesUnique(products)
    ensures r.Ok? <==> ExistsByName(products, name)
    ensures r.Err? ==> r.error == NotFound(ProductResource)
    ensures r.Ok? ==>
      r.value.id in products && r.value == ProductResponseOf(products[r.value.id]) && r.value.name == name
  {
    match FindByName(products, name)
    case None => Err(NotFound(ProductResource))
    case Some(p) => Ok(ProductResponseOf(p))
  }

  /** saveProduct: Conflict when the name is taken, else a new product with
      no users stored under the next generated id. */
  function SaveProduct(products: Products, newId: ProductId, req: ProductRequest): (s: Step<ProductResponse, Products>)
    requires newId !in products
    ensures s.result.Ok? <==> !ExistsByName(products, req.name)
    ensures s.result.Err? ==> s.after == products
    ensures s.result.Err? ==> s.result.error == Conflict(Messages.FieldInUseAsWritten("name", req.name))
    ensures s.result.Err? ==> Contains(s.result.error.message, "name")
    ensures s.result.Ok? ==>
      && s.after == products[newId := Product(newId, req.name, req.price, [])]
      && s.result.value == ProductResponseOf(s.after[newId])
  {
    if ExistsByName(products, req.name) then
      Step(Err(Conflict(Messages.FieldInUseAsWritten("name", req.name))), products)
    else
      var product := Product(newId, req.name, req.price, []);
      Step(Ok(ProductResponseOf(product)), products[newId := product])
  }

  /** The name test of updateField: a non-null, non-empty name that differs
      from the current one other than by letter case. */
  predicate TakesName(product: Product, req: ProductUpdateRequest)
    ensures TakesName(product, req) ==> req.name.Some? && req.name.value != product.name && |req.name.value| > 0
  {
    req.name.Some? && req.name.value != "" && !EqualsIgnoreCase(req.name.value, product.name)
  }

  /** The price test: a non-null price different from the current one. */
  predicate TakesPrice(product: Product, req: ProductUpdateRequest)
  {
    req.price.Some? && req.price.value != product.price
  }

  /** The new name passes the name test but another product holds it. */
  predicate NameTaken(products: Products, product: Product, req: ProductUpdateRequest)
  {
    TakesName(product, req) && ExistsByNameAndIdNot(products, req.name.value, product.id)
  }

  /** The row `after` is `before` with the requested fields applied. */
  predicate Applied(before: Product, after: Product, req: ProductUpdateRequest)
  {
    && after.id == before.id
    && after.users == before.users
    && after.name == (if TakesName(before, req) then req.name.value else before.name)
    && after.price == (if TakesPrice(before, req) then req.price.value else before.price)
  }

  /** updateField on a loaded row: the name conflict is tested first and
      throws before anything is saved. */
  function UpdateField(products: Products, product: Product, req: ProductUpdateRequest): (s: Step<ProductResponse, Products>)
    ensures s.result.Err? <==> NameTaken(products, product, req)
    ensures s.result.Err? ==> s.after == products
    ensures s.result.Err? ==> s.result.error.Conflict? && Contains(s.result.error.message, "name")
  {
    if TakesName(product, req) && ExistsByNameAndIdNot(products, req.name.value, product.id) then
      Step(Err(Conflict(Messages.FieldInUseAsWritten("name", req.name.value))), products)
    else
      var named := if TakesName(product, req) then product.(name := req.name.value) else product;
      var priced := if TakesPrice(named, req) then named.(price := req.price.value) else named;
      Step(Ok(ProductResponseOf(priced)), products[priced.id := priced])
  }

  /** updateProduct: NotFound for an unknown id; Conflict, with nothing
      stored, when another product has the new name; otherwise the row with
      the requested fields applied and no other row touched. */
  function UpdateProduct(products: Products, id: ProductId, req: ProductUpdateRequest): (s: Step<ProductResponse, Products>)
    requires ProductsKeyed(products)
    ensures id !in products ==> s == Step(Err(NotFound(ProductResource)), products)
    ensures s.result.Err? ==> s.after == products
    ensures id in products ==> (s.result.Err? <==> NameTaken(products, products[id], req))
    ensures id in products && s.result.Err? ==>
      s.result.error == Conflict(Messages.FieldInUseAsWritten("name", req.name.value))
    ensures s.result.Ok? ==>
      && id in products
      && OthersUnchanged(products, s.after, id)
      && Applied(products[id], s.after[id], req)
      && s.result.value == ProductResponseOf(s.after[id])
  {
    if id !in products then Step(Err(NotFound(ProductResource)), products)
    else UpdateField(products, products[id], req)
  }

  /** removeProductById: NotFound for an unknown id, else exactly that row deleted. */
  function RemoveProductById(products: Products, id: ProductId): (s: Step<(), Products>)
    ensures s.result.Ok? <==> id in products
    ensures s.result.Err? ==> s == Step(Err(NotFound(ProductResource)), products)
    ensures s.result.Ok? ==>
      s.after.Keys == products.Keys - {id} && forall k :: k in s.after ==> s.after[k] == products[k]
  {
    if id !in products then Step(Err(NotFound(ProductResource)), products)
    else Step(Ok(()), products - {id})
  }

  // ---------------------------------------------------------------------
  // Properties

  /** The listed integrity facts of the product table. */
  ghost predicate TableValid(products: Products)
  {
    ProductsKeyed(products) && NamesUnique(products)
  }

  lemma SaveProductKeepsNamesUnique(products: Products, newId: ProductId, req: ProductRequest)
    requires TableValid(products) && newId !in products
    ensures TableValid(SaveProduct(products, newId, req).after)
  {
  }

  /** An exact-name rename onto another product is refused, so names stay
      unique. A rename differing only in case from another product's name is
      not caught. */
  lemma UpdateProductKeepsNamesUnique(products: Products, id: ProductId, req: ProductUpdateRequest)
    requires TableValid(products)
    ensures TableValid(UpdateProduct(products, id, req).after)
  {
  }

  lemma RemoveProductByIdKeepsNamesUnique(products: Products, id: ProductId)
    requires TableValid(products)
    ensures TableValid(RemoveProductById(products, id).after)
  {
  }

  /** A rename that changes only the letter case is ignored: the name stays,
      and the call succeeds even if that spelling belongs to another product. */
  lemma CaseOnlyRenameIgnored(products: Products, id: ProductId, req: ProductUpdateRequest)
    requires ProductsKeyed(products) && id in products
    requires req.name.Some? && EqualsIgnoreCase(req.name.value, products[id].name)
    ensures UpdateProduct(products, id, req).result.Ok?
    ensures UpdateProduct(products, id, req).after[id].name == products[id].name
  {
  }

  /** The price is stored exactly when it is given and differs. */
  lemma PriceChangesOnlyWhenDifferent(products: Products, id: ProductId, req: ProductUpdateRequest)
    requires ProductsKeyed(products)
    requires UpdateProduct(products, id, req).result.Ok?
    ensures var p := UpdateProduct(products, id, req).after[id];
      p.price != products[id].price <==> req.price.Some? && req.price.value != products[id].price
  {
  }

  /** An update request with neither field changes nothing and replies with
      the stored product. */
  lemma EmptyUpdateIsIdentity(products: Products, id: ProductId)
    requires ProductsKeyed(products) && id in products
    ensures UpdateProduct(products, id, ProductUpdateRequest(None, None)) ==
      Step(Ok(ProductResponseOf(products[id])), products)
  {
    var p := products[id];
    assert products[p.id := p] == products;
  }

  // ---------------------------------------------------------------------
  // The product operations and the association facts of both tables

  /** Creating a product keeps the whole store consistent, provided no user
      already lists the fresh id. */
  lemma SaveProductKeepsInvariant(db: Db, newId: ProductId, req: ProductRequest)
    requires Invariant(db) && newId !in db.products
    requires forall u :: u in db.users ==> newId !in db.users[u].products
    ensures Invariant(Db(db.users, SaveProduct(db.products, newId, req).after))
  {
  }

  /** An update never touches a product's user list. */
  lemma UpdateProductKeepsInvariant(db: Db, id: ProductId, req: ProductUpdateRequest)
    requires Invariant(db)
    ensures Invariant(Db(db.users, UpdateProduct(db.products, id, req).after))
  {
    var s := UpdateProduct(db.products, id, req);
    if s.result.Ok? {
      assert forall k :: k in s.after ==> s.after[k].users == db.products[k].users;
    }
  }

  /** Deleting a product keeps the association facts between the rows that
      remain (the users' lists may still name the deleted id). */
  lemma RemoveProductByIdKeepsInvariant(db: Db, id: ProductId)
    requires Invariant(db)
    ensures Invariant(Db(db.users, RemoveProductById(db.products, id).after))
  {
  }
}
