# User and product catalogue services — a Dafny model

This project models the service layer of a small Spring Boot application.
**Users** register with an email and a password and hold a list of roles
(USER, ADMIN). They are linked many-to-many to **products**, which have a
unique name and a price. Three services carry the logic:

- `UserService`: reads users; applies partial profile updates with an email
  uniqueness check; attaches and detaches products; promotes to and demotes
  from ADMIN; deletes users by id or by the caller's email.
- `ProductService`: reads products by id and by name; creates them with a
  unique name; applies partial updates (the name is compared ignoring case,
  and the price is set only when it differs); deletes them.
- `AuthService`: registration (email uniqueness, the USER role, the encoded
  password) and the user lookup at the end of login.

The JPA repositories are in-memory tables:
- `Repositories.UserRepository` and `Repositories.ProductRepository` are
  classes. Each holds a `map` from id to row and an identity counter that
  starts at 1.
- The derived queries (`existsByEmail`, `existsByEmailAndIdNot`,
  `findByEmail`, `findAllByOrderByIdAsc`, `existsByName`,
  `existsByNameAndIdNot`, `findByName`) are functions of the table in
  module `Store`.

Entities are values. A row loaded with `findById` is a detached copy:
setters change the copy and only `save` writes it back. So an operation that
throws after a setter leaves the table as it was. This matters in
`updateUserField`, which sets the username before the email conflict test.

Each write operation is modelled twice:
- **A rule.** `UserRules`, `ProductRules` and `AuthRules` give each operation
  as a function from the tables to a `Step`: the reply or the exception
  (`NotFound(resource)` or `Conflict(message)`), plus the tables afterwards.
- **A method.** The classes in `Services` run the operation step by step on
  the repository objects, in the source's order. Each method is proved to
  return the rule's result and to leave the rule's tables.

The read operations (`findUserById`, `getAllUsers`, `getProductById`,
`getProductByName` and the user lookup of `login`) change nothing, so they
are modelled only as rules: `UserRules.FindUserById`, `UserRules.GetAllUsers`,
`ProductRules.GetProductById`, `ProductRules.GetProductByName` and
`AuthRules.Login`.

The lemmas next to each rule prove what the operations promise:
- every write operation preserves the store invariant (`Store.Invariant`):
  rows are keyed by their id, emails and product names are unique, roles
  and association lists have no duplicates, and `user.products` and
  `product.users` agree. For `saveProduct` and `register` this needs one
  more hypothesis: the fresh id is not already listed on the other side
  (no user lists the new product id; no product lists the new user id).
  The model does not prove that hypothesis from the repositories' state
  (see `Services.ProductService` and `Services.AuthService` under Left out);
- round trips restore the tables (promote then demote; attach then detach);
- the substring quirk of `updateUserField` and the case-only rename of
  `updateField` are exhibited.

Java's `String.contains` and `equalsIgnoreCase` are in `Strings`.
`List.add` and `List.remove(Object)` are modelled in `Lists`: appending,
and dropping the first occurrence. The exception messages are in `Messages`. The operations raise the
`ConflictException` text exactly as its constructor builds it; the corrected
text is defined beside it (see Findings).

The repository interfaces declare only the `existsBy…` and
`findByName` queries. `findByEmail` and `findAllByOrderByIdAsc` are called
by the services but not declared. The model gives them their usual
derived-query meaning.

## Model

| member | source | states |
|---|---|---|
| Entities.UserResponseIgnoresPrivateFields | src/main/java/com/example/Primeiro_Projeto/dtos/UserResponseDTO.java:21-26 | the user response does not depend on the password or the product list |
| Entities.ProductResponseDeterminesProduct | src/main/java/com/example/Primeiro_Projeto/dtos/ProductResponseDTO.java:21-31 | two products have the same response exactly when they are the same product: the response keeps every field |
| UserRules.GetAllUsers | src/main/java/com/example/Primeiro_Projeto/services/UserService.java:40-48 | one response per stored user, in strictly ascending id order, each equal to the projection of the stored row, and every stored user appears |
| UserRules.FindUserById | src/main/java/com/example/Primeiro_Projeto/services/UserService.java:59-65 | succeeds exactly when the id is stored, with the projection of that row; otherwise NotFound(user) |
| UserRules.TakesUsername | src/main/java/com/example/Primeiro_Projeto/services/UserService.java:210-217 | a username that passes the test is non-empty and differs from the current one |
| UserRules.TakesEmail | src/main/java/com/example/Primeiro_Projeto/services/UserService.java:219-222 | an email that passes the test is non-empty and differs from the current one |
| UserRules.UpdateUserField | src/main/java/com/example/Primeiro_Projeto/services/UserService.java:209-234 | fails exactly when the new email passes the email test and another user holds it; the failure is a Conflict whose message contains the field name `email` and leaves the table unchanged, so the username already set on the copy is lost |
| UserRules.UpdateUser | src/main/java/com/example/Primeiro_Projeto/services/UserService.java:67-79 | NotFound for an unknown id, with the table unchanged; Conflict exactly when the email is taken by another id, with the constructor's message for `email` and the table unchanged; on success only this row changes: the username changes exactly when non-null, non-empty and not containing the current one, the email likewise, and the id, password, roles and products are kept |
| UserRules.UpdateMe | src/main/java/com/example/Primeiro_Projeto/services/UserService.java:81-91 | NotFound when no user has the caller's email; otherwise the same step as updateUser on the id of the user holding that email |
| UserRules.AddProductForUser | src/main/java/com/example/Primeiro_Projeto/services/UserService.java:93-119 | NotFound(user) for an absent user even when the product is absent too, then NotFound(product); when it is already attached, a Conflict whose message is exactly the 'already has' text for that username and product name; every error leaves both tables unchanged; success exactly otherwise, appending the product id to the user's list and the user id to the product's list, replying with the updated user |
| UserRules.RemoveProductFromUser | src/main/java/com/example/Primeiro_Projeto/services/UserService.java:121-147 | the same lookup order; when it is not attached, a Conflict whose message is exactly the 'does not have' text for that username and product name; every error leaves both tables unchanged; success exactly otherwise, dropping the first occurrence from both lists |
| UserRules.PromoteToAdmin | src/main/java/com/example/Primeiro_Projeto/services/UserService.java:149-164 | NotFound for an unknown id; success exactly when ADMIN is absent, appending ADMIN to that user's roles only; otherwise Conflict('User já é ADMIN') with the table unchanged |
| UserRules.RemoveFromAdmin | src/main/java/com/example/Primeiro_Projeto/services/UserService.java:166-181 | NotFound for an unknown id; success exactly when ADMIN is present, dropping its first occurrence from that user's roles only; otherwise Conflict('User não é ADMIN') with the table unchanged |
| UserRules.RemoveUser | src/main/java/com/example/Primeiro_Projeto/services/UserService.java:183-193 | NotFound with the table unchanged for an absent id; otherwise the table minus exactly that id, every other row unchanged |
| UserRules.RemoveMe | src/main/java/com/example/Primeiro_Projeto/services/UserService.java:195-207 | NotFound exactly when no user has the email; otherwise the table minus exactly the holder of the email, and afterwards no user has that email |
| UserRules.UpdateUserKeepsInvariant | src/main/java/com/example/Primeiro_Projeto/services/UserService.java:219-232 | an update keeps the store invariant, in particular no two users end up with the same email |
| UserRules.UpdateMeKeepsInvariant | src/main/java/com/example/Primeiro_Projeto/services/UserService.java:81-91 | updateMe keeps the store invariant |
| UserRules.AddProductForUserKeepsInvariant | src/main/java/com/example/Primeiro_Projeto/services/UserService.java:107-116 | attaching keeps the two sides of the association symmetric and free of duplicates |
| UserRules.RemoveProductFromUserKeepsInvariant | src/main/java/com/example/Primeiro_Projeto/services/UserService.java:135-144 | detaching keeps the two sides of the association symmetric and free of duplicates |
| UserRules.PromoteToAdminKeepsInvariant | src/main/java/com/example/Primeiro_Projeto/services/UserService.java:155-161 | promotion keeps every role list free of duplicates and the rest of the invariant |
| UserRules.RemoveFromAdminKeepsInvariant | src/main/java/com/example/Primeiro_Projeto/services/UserService.java:172-178 | demotion keeps the store invariant |
| UserRules.RemoveUserKeepsInvariant | src/main/java/com/example/Primeiro_Projeto/services/UserService.java:186-191 | deleting a user keeps the store invariant |
| UserRules.RemoveMeKeepsInvariant | src/main/java/com/example/Primeiro_Projeto/services/UserService.java:196-206 | deleting the caller keeps the store invariant |
| UserRules.PromoteThenDemoteRestores | src/main/java/com/example/Primeiro_Projeto/services/UserService.java:150-180 | a successful promotion followed by a demotion gives back the original table and replies with the original user |
| UserRules.RemoveFromAdminRevokes | src/main/java/com/example/Primeiro_Projeto/services/UserService.java:172-177 | with duplicate-free roles, a demoted user no longer has ADMIN |
| UserRules.AddThenRemoveRestores | src/main/java/com/example/Primeiro_Projeto/services/UserService.java:94-146 | when the two sides of the association agree, a successful attach followed by a detach of the same pair gives back both original tables and replies with the original user |
| UserRules.UpdateUserIgnoresExtendedUsername | src/main/java/com/example/Primeiro_Projeto/services/UserService.java:210-217 | a new username that contains the current one with text added around it is not applied |
| UserRules.UpdateUserIgnoresExtendedEmail | src/main/java/com/example/Primeiro_Projeto/services/UserService.java:219-230 | a new email that contains the current one is neither checked for conflict nor applied, so the call succeeds with the email unchanged |
| ProductRules.GetProductById | src/main/java/com/example/Primeiro_Projeto/services/ProductService.java:53-62 | succeeds exactly when the id is stored, with the projection of that row; otherwise NotFound(product) |
| ProductRules.GetProductByName | src/main/java/com/example/Primeiro_Projeto/services/ProductService.java:64-73 | succeeds exactly when some product has exactly that name, with the projection of the stored row of that name; otherwise NotFound(product) |
| ProductRules.SaveProduct | src/main/java/com/example/Primeiro_Projeto/services/ProductService.java:89-102 | Conflict exactly when the name is already stored, with the constructor's message for `name` (which contains the field name) and the table unchanged; otherwise a new row with that name and price and no users under the fresh id |
| ProductRules.TakesName | src/main/java/com/example/Primeiro_Projeto/services/ProductService.java:117-120 | a name that passes the test is non-empty and differs from the current one |
| ProductRules.UpdateField | src/main/java/com/example/Primeiro_Projeto/services/ProductService.java:115-140 | fails exactly when the new name passes the name test and another product holds it exactly; the failure is a Conflict whose message contains the field name `name` and leaves the table unchanged |
| ProductRules.UpdateProduct | src/main/java/com/example/Primeiro_Projeto/services/ProductService.java:75-87 | NotFound for an unknown id; Conflict exactly when another id has the new name, with the constructor's message for `name` and the table unchanged; on success only this row changes: the name changes exactly when non-null, non-empty and not equal ignoring case, the price exactly when given and different, and the user list is kept |
| ProductRules.RemoveProductById | src/main/java/com/example/Primeiro_Projeto/services/ProductService.java:104-113 | NotFound with the table unchanged for an absent id; otherwise the table minus exactly that id |
| ProductRules.SaveProductKeepsNamesUnique | src/main/java/com/example/Primeiro_Projeto/services/ProductService.java:94-99 | creation keeps product names unique |
| ProductRules.UpdateProductKeepsNamesUnique | src/main/java/com/example/Primeiro_Projeto/services/ProductService.java:116-127 | an update keeps product names unique |
| ProductRules.RemoveProductByIdKeepsNamesUnique | src/main/java/com/example/Primeiro_Projeto/services/ProductService.java:107-112 | deletion keeps product names unique |
| ProductRules.CaseOnlyRenameIgnored | src/main/java/com/example/Primeiro_Projeto/services/ProductService.java:116-127 | a name equal to the current one ignoring case is not applied and raises no conflict |
| ProductRules.PriceChangesOnlyWhenDifferent | src/main/java/com/example/Primeiro_Projeto/services/ProductService.java:129-136 | after a successful update the price differs from the old one exactly when a different price was requested |
| ProductRules.EmptyUpdateIsIdentity | src/main/java/com/example/Primeiro_Projeto/services/ProductService.java:115-139 | a request with both fields null leaves the table unchanged and replies with the stored product |
| ProductRules.SaveProductKeepsInvariant | src/main/java/com/example/Primeiro_Projeto/services/ProductService.java:99 | creating a product whose id no user lists keeps the store invariant |
| ProductRules.UpdateProductKeepsInvariant | src/main/java/com/example/Primeiro_Projeto/services/ProductService.java:138 | an update keeps the store invariant |
| ProductRules.RemoveProductByIdKeepsInvariant | src/main/java/com/example/Primeiro_Projeto/services/ProductService.java:112 | deleting a product keeps the store invariant among the remaining rows |
| AuthRules.Register | src/main/java/com/example/Primeiro_Projeto/services/AuthService.java:43-61 | Conflict exactly when some user has the email, with the constructor's message for `email` (which contains the field name) and the table unchanged; otherwise a new row under the fresh id with the given username and email, roles exactly [USER], password encode(raw) and no products, replying with its projection |
| AuthRules.Login | src/main/java/com/example/Primeiro_Projeto/services/AuthService.java:72-80 | after authentication: NotFound exactly when no user has the email, otherwise the token generated for that email |
| AuthRules.RegisterKeepsInvariant | src/main/java/com/example/Primeiro_Projeto/services/AuthService.java:49-58 | registration under an id that is not stored and that no product lists as a user keeps the store invariant, in particular email uniqueness |
| AuthRules.RegisterThenLogin | src/main/java/com/example/Primeiro_Projeto/services/AuthService.java:49-80 | after a successful registration, the login lookup for the new email yields the token for it |
| Store.ExistsByEmailAndIdNot | src/main/java/com/example/Primeiro_Projeto/repositories/UserRepository.java:11 | implies existsByEmail, and agrees with it when the excluded id is not stored |
| Store.ExistsByNameAndIdNot | src/main/java/com/example/Primeiro_Projeto/repositories/ProductRepository.java:14 | implies existsByName, and agrees with it when the excluded id is not stored |
| Store.FindByEmail | src/main/java/com/example/Primeiro_Projeto/services/UserService.java:82 | finds a row exactly when one has the email, and then it is the stored row with that email |
| Store.FindByName | src/main/java/com/example/Primeiro_Projeto/repositories/ProductRepository.java:11 | finds a row exactly when one has the name, and then it is the stored row with that name |
| Store.FindAllByOrderByIdAsc | src/main/java/com/example/Primeiro_Projeto/services/UserService.java:44 | all stored rows, each once, in strictly ascending id order |
| Store.SortedIds | src/main/java/com/example/Primeiro_Projeto/services/UserService.java:44 | the ids of a set in strictly ascending order, each exactly once |
| Strings.Contains | src/main/java/com/example/Primeiro_Projeto/services/UserService.java:210-222 | String.contains: every string contains the empty string and itself, and nothing longer than it |
| Strings.EqualsIgnoreCase | src/main/java/com/example/Primeiro_Projeto/services/ProductService.java:119 | String.equalsIgnoreCase holds exactly when the lengths agree and the characters agree after upper-casing; every string equals itself |
| Strings.ToUpperAscii | src/main/java/com/example/Primeiro_Projeto/services/ProductService.java:119 | the result is never a lower-case letter; lower-case letters map to upper-case ones and every other character to itself |
| Strings.ContainsIffOccurs | src/main/java/com/example/Primeiro_Projeto/services/UserService.java:213 | the substring test used by updateUserField holds exactly when the string occurs at some index |
| Lists.RemoveFirst | src/main/java/com/example/Primeiro_Projeto/services/UserService.java:140-141 | List.remove drops one occurrence when present (the multiset loses one copy) and changes nothing when absent |
| Lists.IndexOf | src/main/java/com/example/Primeiro_Projeto/services/UserService.java:140-141 | the position of the first occurrence: it holds the element and no earlier position does |
| Lists.RemoveFirstCutsFirstOccurrence | src/main/java/com/example/Primeiro_Projeto/services/UserService.java:140-141 | List.remove cuts out exactly the element at the first occurrence and keeps the rest in order |
| Lists.RemoveFirstOfAppended | src/main/java/com/example/Primeiro_Projeto/services/UserService.java:112 | removing an element just appended to a list without it gives back the list |
| Lists.RemoveFirstOfDistinct | src/main/java/com/example/Primeiro_Projeto/services/UserService.java:177 | in a duplicate-free list, remove leaves every other element, no copy of the removed one, and no duplicates |
| Messages.FieldInUseAsWritten | src/main/java/com/example/Primeiro_Projeto/exceptions/ConflictException.java:9-11 | the message as built contains the field name |
| Messages.FieldInUseAsWrittenDropsValue | src/main/java/com/example/Primeiro_Projeto/exceptions/ConflictException.java:10 | the message as built does not mention the conflicting email address |
| Messages.FieldInUse | src/main/java/com/example/Primeiro_Projeto/exceptions/ConflictException.java:9-11 | the corrected message contains both the field name and the value in use; the operations raise the message as written |
| Messages.Between | src/main/java/com/example/Primeiro_Projeto/services/UserService.java:109-137 | a message of the form user, verb, product names both the user and the product |
| Repositories.UserRepository.constructor | src/main/java/com/example/Primeiro_Projeto/repositories/UserRepository.java:8 | an empty table with the identity counter at 1 |
| Repositories.UserRepository.Save | src/main/java/com/example/Primeiro_Projeto/repositories/UserRepository.java:8 | saving a loaded row replaces exactly that row |
| Repositories.UserRepository.Insert | src/main/java/com/example/Primeiro_Projeto/repositories/UserRepository.java:8 | saving a new row stores it under the next id, which no row had, and advances the counter |
| Repositories.UserRepository.DeleteById | src/main/java/com/example/Primeiro_Projeto/repositories/UserRepository.java:8 | exactly that id is removed |
| Repositories.ProductRepository.constructor | src/main/java/com/example/Primeiro_Projeto/repositories/ProductRepository.java:10 | an empty table with the identity counter at 1 |
| Repositories.ProductRepository.Save | src/main/java/com/example/Primeiro_Projeto/repositories/ProductRepository.java:10 | saving a loaded row replaces exactly that row |
| Repositories.ProductRepository.Insert | src/main/java/com/example/Primeiro_Projeto/repositories/ProductRepository.java:10 | saving a new row stores it under the next id, which no row had, and advances the counter |
| Repositories.ProductRepository.DeleteById | src/main/java/com/example/Primeiro_Projeto/repositories/ProductRepository.java:10 | exactly that id is removed |
| Services.UserService.constructor | src/main/java/com/example/Primeiro_Projeto/services/UserService.java:35-38 | the service works on the two given repositories |
| Services.UserService.UpdateUserField | src/main/java/com/example/Primeiro_Projeto/services/UserService.java:209-234 | the setters and the save leave the reply and table of UserRules.UpdateUserField |
| Services.UserService.UpdateUser | src/main/java/com/example/Primeiro_Projeto/services/UserService.java:67-79 | reply and user table as UserRules.UpdateUser; the store invariant is kept |
| Services.UserService.UpdateMe | src/main/java/com/example/Primeiro_Projeto/services/UserService.java:81-91 | reply and user table as UserRules.UpdateMe; the store invariant is kept |
| Services.UserService.AddProductForUser | src/main/java/com/example/Primeiro_Projeto/services/UserService.java:93-119 | reply and both tables as UserRules.AddProductForUser; the store invariant is kept |
| Services.UserService.RemoveProductFromUser | src/main/java/com/example/Primeiro_Projeto/services/UserService.java:121-147 | reply and both tables as UserRules.RemoveProductFromUser; the store invariant is kept |
| Services.UserService.PromoteToAdmin | src/main/java/com/example/Primeiro_Projeto/services/UserService.java:149-164 | reply and user table as UserRules.PromoteToAdmin; the store invariant is kept |
| Services.UserService.RemoveFromAdmin | src/main/java/com/example/Primeiro_Projeto/services/UserService.java:166-181 | reply and user table as UserRules.RemoveFromAdmin; the store invariant is kept |
| Services.UserService.RemoveUser | src/main/java/com/example/Primeiro_Projeto/services/UserService.java:183-193 | reply and user table as UserRules.RemoveUser; the store invariant is kept |
| Services.UserService.RemoveMe | src/main/java/com/example/Primeiro_Projeto/services/UserService.java:195-207 | reply and user table as UserRules.RemoveMe; the store invariant is kept |
| Services.ProductService.constructor | src/main/java/com/example/Primeiro_Projeto/services/ProductService.java:30-33 | the service works on the given repository |
| Services.ProductService.SaveProduct | src/main/java/com/example/Primeiro_Projeto/services/ProductService.java:89-102 | reply (including the Conflict text as the constructor builds it) and table as ProductRules.SaveProduct under the next generated id, which is consumed only on success; names stay unique |
| Services.ProductService.UpdateField | src/main/java/com/example/Primeiro_Projeto/services/ProductService.java:115-140 | the setters and the save leave the reply and table of ProductRules.UpdateField |
| Services.ProductService.UpdateProduct | src/main/java/com/example/Primeiro_Projeto/services/ProductService.java:75-87 | reply and table as ProductRules.UpdateProduct; names stay unique |
| Services.ProductService.RemoveProductById | src/main/java/com/example/Primeiro_Projeto/services/ProductService.java:104-113 | reply and table as ProductRules.RemoveProductById |
| Services.AuthService.constructor | src/main/java/com/example/Primeiro_Projeto/services/AuthService.java:35-41 | the service works on the given repository and password encoder |
| Services.AuthService.Register | src/main/java/com/example/Primeiro_Projeto/services/AuthService.java:43-61 | reply (including the Conflict text as the constructor builds it) and table as AuthRules.Register under the next generated id, which is consumed only on success; emails stay unique |

## Left out

- Controllers, HTTP status codes, the `@PreAuthorize` role gates and the exception-to-response handler. They are framework plumbing. `NotFound` and `Conflict` stand for the two exceptions.
- Caching (`@Cacheable` and `@CacheEvict`) is left out. Every read is modelled as a read of the current table, never of a stale cached reply.
- Pagination (`getUserPaginated`, `getProductsPaginated`) is left out: paging happens inside the Spring Data repository.
- `listAllProducts` is left out: it returns `findAll()` in an order the repository does not fix.
- Logging is left out, and so is the startup seeding.
- `login` models only the user lookup after authentication has succeeded. `AuthenticationManager.authenticate` is a foreign call and is not modelled.
- The JWT token generator is a function parameter, and so is the password encoder (a field of `AuthService`). Neither is modelled further.
- ModelMapper is taken to copy the request's fields by name onto a fresh entity.
- `UserRequestDTO` declares no password field, but `register` reads one. The model's `UserRequest` carries a password, as the service and its tests use it.
- DTO validation annotations (sizes, `@Email`, `@NotBlank`) are not modelled. The rules accept any strings, because the services themselves do.
- Ids are unbounded naturals. A `Long` overflow of the identity counter is not modelled.
- `Entities.Price`: the `Double` price is an `int`. The services only store prices and compare them with `equals`; no arithmetic happens.
- `Strings.EqualsIgnoreCase` maps case for ASCII letters only. Java's Unicode case mapping is not modelled.
- The `User` and `Product` entity classes are not part of this model. Rows are identified by id in `contains` and `remove`, and each side of the association is a list of ids.
- The JPA owning side and the join table of the association are not modelled.
- Deletions do not cascade: deleting a row can leave its id in lists on the other side. `Store.AssociationsSymmetric` speaks only of pairs of rows that are both present.
- `ProductResponse` lists the ids of a product's users. The usernames that the response DTO also carries are left out.
- The message texts of `ResourceNotFoundException` are not modelled, only which resource was missing.
- Transactions and concurrency are not modelled: every operation runs alone.
- Store.FindByEmail: requires unique emails. A derived single-result query throws when several rows match, and that failure is not modelled.
- Store.FindByName: requires unique names, for the same reason.
- Services.ProductService: its validity covers only the product table, because the service holds only that repository. `ProductRules.SaveProductKeepsInvariant` states the cross-table fact separately.
- Services.AuthService: its validity covers only the user table, for the same reason. `AuthRules.RegisterKeepsInvariant` states the cross-table fact separately.

## Findings

| source | as written | input that shows it | evidently intended | confidence | as-written member | corrected member |
|---|---|---|---|---|---|---|
| src/main/java/com/example/Primeiro_Projeto/exceptions/ConflictException.java:10 | the two-argument constructor puts the field name in both places, where the second should be the value | a conflict on a registration or update with email `ana@mail.com` gives a message that names the field `email` twice and never the address | the value in use, quoted after the field name | high; not executed | Messages.FieldInUseAsWritten, Messages.FieldInUseAsWrittenDropsValue | Messages.FieldInUse |
