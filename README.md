# Grill & pizzeria order system — a verified model of its core

The system is an ASP.NET Core web API (the "middleware") over an Entity
Framework database, plus an MVC web front end that keeps a shopping cart
in a cookie and forwards everything else to the API. This project models
the parts of both that carry rules:

- **The catalog controllers** (foods, food categories, allergens): name
  uniqueness that a case-only rename skips, the foreign-key check on the
  category, replacement of the food/allergen join rows with unknown ids
  dropped, and the paged food search (validate, filter, count, page count,
  order by name then id, skip/take).
- **Orders**: create checks the user, the food list and every food id before
  writing one order row and one line item per food; delete removes the line
  items with the order; listings are newest first.
- **Identity**: registration refuses a taken username or email and assigns
  the "user" role; `GetMe`/`UpdateMe` read the caller's id from the claim;
  `UpdateMe` refuses an email another user holds and changes only the
  fields the mapping profile lets through; the admin listing clamps `take`.
- **The audit log**: append-only writes at three levels and newest-first reads.
- **The read mappings** (AutoMapper profile): role name, category and
  allergens of a food, unit price and line total of an order item.
- **Validators and constants**: the decimal precision/scale attribute, the
  order DTO rules, the image-upload rules of the web food controller
  (extension whitelist, 5 MiB cap, stored path, web path to file path,
  when an image is deleted) and the shared bound constants.
- **Small value types**: the web app's `ApiOperationResult` factories and
  the lower-case hex rendering of the password digest.
- **The web cart**: add (upsert, quantity clamped to [1, 100]), remove
  (decrement or drop), the priced summary that skips unknown foods, and the
  empty-cart guard before an order is sent.

The database is one `Store.Database` object whose tables are sequences
(one per entity, plus a set of food/allergen join rows) and whose single
counter plays the identity column. Each state-changing API action has a
specification function `XOutcome(state, inputs)` giving the HTTP response and
the new state. A method performs the same steps on the database and is
proved equal to it. Lemmas beside it state what the action means: which
checks refuse, what is written, what is left alone, and that key validity
(`Store.ValidState`) and name uniqueness are preserved. Prices are integers
in hundredths, since the price column has scale 2. Timestamps, generated
file names and `ModelState.IsValid` are parameters. C# `int` arithmetic that
can overflow (the search offset, the cart increment) goes through
`Int32.Wrap`, the unchecked 32-bit result.

Specification functions that carry no contract of their own (the
`XOutcome` functions, `FoodController.Filtered`, `PageOf`, `CeilDiv`,
`UserController.EmailInUse`, `WebFoodController.FilePath`, `CheckUpload`,
`ShouldDeleteImage`, `ReplyMessage`, `Text.IsNullOrWhiteSpace`,
`Collation.DbEquals`, `DbContains` and the like) are described by the rows
of the lemmas and methods that state their properties; the table lists
members with contracts.

Modules follow the repository's files: `allergen_controller`,
`food_category_controller`, `food_controller`, `orders_controller`,
`user_controller`, `authentication_controller`, `logs_controller`,
`app_logger`, `mapping_profile`, `decimal_range`, `validation_constants`,
`order_create_dto`, `api_operation_result`, `hashing`,
`web_food_controller` and `web_order_controller`. Shared pieces live in
`entities`, `store`, `tables` (the LINQ operators on one table), `catalog`
(name uniqueness), `ordering` (`OrderBy`, `Skip`, `Take`), `collation`
(string comparison inside queries), `text` (string helpers), `responses`
and `wrappers`.

Where the code and its surrounding data shapes disagree, the model follows
the code of each action:

- The order line item carries a quantity, as the read mapping uses one.
  The entity file declares none, and `Create` never sets it, so it is 0.
- `Create` reads `UserId` and `FoodIds` from its body. The order DTO file
  declares `Items`, and that file is modelled separately as a validator.
- `Register` refers to an undeclared `dto`. The model reads those fields from
  the `registerUser` parameter.
- `Register` also uses names that nothing else declares: the context type
  `YourDbContext` (AuthenticationController.cs lines 10 and 12) and the user
  property `RoleID` (line 34), where the user entity declares `RoleId`. The
  model reads and writes the users and roles of the one database, and the
  new user's `roleId`.
- `UpdateMe` compares stored emails with `dto.email` (UserController.cs
  line 133), while the update DTO declares `Email`. The model uses the DTO's
  email field.
- The food read DTO file declares `FoodCategoryName` and `AllergenNames`,
  while the mapping profile maps the undeclared `Category` and `Allergens`
  (MappingProfile.cs lines 46-47). `MappingProfile.FoodRead` follows the
  profile: the category row and the allergen rows.
- The order item read DTO file declares `FoodName`, while the profile maps
  an undeclared `Food` (line 56). `MappingProfile.ItemRead` follows the DTO
  file: the name of the food, absent when the food is gone.

## Model

| member | source | states |
|---|---|---|
| AllergenController.CreateEffect | GrillPizzeriaOrderSystem/GrillPizzeriaOrderMiddleware/Controllers/AllergenController.cs:73-106 | an invalid body is answered 400 by `[ApiController]` before the action runs and changes nothing; otherwise Created exactly when no allergen has the name (database comparison), with the new row at the next id as the body, and a refusal inserts nothing; a checked request appends exactly one log row; other tables are unchanged; key validity and name uniqueness are kept |
| AllergenController.Create | GrillPizzeriaOrderSystem/GrillPizzeriaOrderMiddleware/Controllers/AllergenController.cs:73-106 | performs `CreateOutcome` on the database: its response and its new state, keeping the store valid |
| AllergenController.GetAll | GrillPizzeriaOrderSystem/GrillPizzeriaOrderMiddleware/Controllers/AllergenController.cs:29-46 | every allergen exactly once (a permutation of the table), in ordinal name order |
| AllergenController.ByNameOrdersNames | GrillPizzeriaOrderSystem/GrillPizzeriaOrderMiddleware/Controllers/AllergenController.cs:32-34 | a table sorted by the name key lists the names in ordinal order |
| AllergenController.GetById | GrillPizzeriaOrderSystem/GrillPizzeriaOrderMiddleware/Controllers/AllergenController.cs:51-68 | 404 exactly when no allergen has the id; otherwise a stored allergen with that id |
| AllergenController.UpdateEffect | GrillPizzeriaOrderSystem/GrillPizzeriaOrderMiddleware/Controllers/AllergenController.cs:111-145 | an invalid body is answered 400 before the action runs and changes nothing; an unknown id gives 404 and no change; a case-only rename is always accepted; on success exactly the row of that id gets the new name and every other row and table is unchanged; a refusal leaves the table as it was; keys and name uniqueness are kept |
| AllergenController.Update | GrillPizzeriaOrderSystem/GrillPizzeriaOrderMiddleware/Controllers/AllergenController.cs:111-145 | performs `UpdateOutcome` on the database |
| AllergenController.DeleteEffect | GrillPizzeriaOrderSystem/GrillPizzeriaOrderMiddleware/Controllers/AllergenController.cs:150-171 | an unknown id gives 404 and no change; otherwise exactly that allergen is removed (one row fewer, all others kept) and one log row is appended; keys and name uniqueness are kept |
| AllergenController.Delete | GrillPizzeriaOrderSystem/GrillPizzeriaOrderMiddleware/Controllers/AllergenController.cs:150-171 | performs `DeleteOutcome` on the database |
| FoodCategoryController.CreateEffect | GrillPizzeriaOrderSystem/GrillPizzeriaOrderMiddleware/Controllers/FoodCategoryController.cs:29-65 | an invalid body is answered 400 by `[ApiController]` before the action runs and changes nothing; otherwise Created exactly when the name is free, with exactly one category of that name appended at the next id, and a refusal inserts nothing; a checked request appends exactly one log row; keys and name uniqueness are kept |
| FoodCategoryController.Create | GrillPizzeriaOrderSystem/GrillPizzeriaOrderMiddleware/Controllers/FoodCategoryController.cs:29-65 | performs `CreateOutcome` on the database |
| FoodCategoryController.Get | GrillPizzeriaOrderSystem/GrillPizzeriaOrderMiddleware/Controllers/FoodCategoryController.cs:93-112 | 404 exactly when no category has the id; otherwise a stored category with that id |
| FoodCategoryController.UpdateEffect | GrillPizzeriaOrderSystem/GrillPizzeriaOrderMiddleware/Controllers/FoodCategoryController.cs:118-160 | an invalid body is answered 400 before the action runs and changes nothing; an unknown id gives 404 and no change; a case-only rename skips the uniqueness check; on success only the target category's name changes; keys and name uniqueness are kept |
| FoodCategoryController.PaddedRenameConflicts | GrillPizzeriaOrderSystem/GrillPizzeriaOrderMiddleware/Controllers/FoodCategoryController.cs:136-142 | renaming a category to its own name plus a trailing space is refused as a duplicate, since the database finds the category itself |
| FoodCategoryController.Update | GrillPizzeriaOrderSystem/GrillPizzeriaOrderMiddleware/Controllers/FoodCategoryController.cs:118-160 | performs `UpdateOutcome` on the database |
| FoodCategoryController.DeleteEffect | GrillPizzeriaOrderSystem/GrillPizzeriaOrderMiddleware/Controllers/FoodCategoryController.cs:166-188 | an unknown id gives 404 and no change; otherwise exactly that category is removed and one log row is appended |
| FoodCategoryController.Delete | GrillPizzeriaOrderSystem/GrillPizzeriaOrderMiddleware/Controllers/FoodCategoryController.cs:166-188 | performs `DeleteOutcome` on the database |
| FoodController.LinkSet | GrillPizzeriaOrderSystem/GrillPizzeriaOrderMiddleware/Controllers/FoodController.cs:203-204 | the join rows written are exactly (food, id) for each listed id |
| FoodController.LinksNotOf | GrillPizzeriaOrderSystem/GrillPizzeriaOrderMiddleware/Controllers/FoodController.cs:273 | removing a food's join rows keeps exactly the rows of the other foods |
| FoodController.AttachExisting | GrillPizzeriaOrderSystem/GrillPizzeriaOrderMiddleware/Controllers/FoodController.cs:196-206 | after attaching, a food is linked to an allergen exactly when it was before or the id is listed and exists (unknown ids dropped); other foods' rows are untouched |
| FoodController.AddLinks | GrillPizzeriaOrderSystem/GrillPizzeriaOrderMiddleware/Controllers/FoodController.cs:203-206 | the foreach adds exactly the join rows of `LinkSet` and changes nothing else |
| FoodController.CeilDivIsCeiling | GrillPizzeriaOrderSystem/GrillPizzeriaOrderMiddleware/Controllers/FoodController.cs:122-123 | the page count is the least count whose pages cover `total`, and it is 0 exactly when `total` is 0 |
| FoodController.PageOffset | GrillPizzeriaOrderSystem/GrillPizzeriaOrderMiddleware/Controllers/FoodController.cs:130 | the Skip count `(page - 1) * pageSize` as C# computes it, in 32 bits: always an int, and exactly the product whenever that fits |
| FoodController.ReadAll | GrillPizzeriaOrderSystem/GrillPizzeriaOrderMiddleware/Controllers/FoodController.cs:134 | one read DTO per food, in order |
| FoodController.FilteredIff | GrillPizzeriaOrderSystem/GrillPizzeriaOrderMiddleware/Controllers/FoodController.cs:104-117 | a food survives the filters exactly when it is stored, its name or description contains the trimmed query (or the query is blank, white space in the .NET Unicode sense) and it is in the requested category (or none is requested) |
| FoodController.SearchRejectsBadPaging | GrillPizzeriaOrderSystem/GrillPizzeriaOrderMiddleware/Controllers/FoodController.cs:91-95 | page < 1, pageSize < 1 or pageSize > 100 yields 400 with one error log row and no other change |
| FoodController.SearchPageContents | GrillPizzeriaOrderSystem/GrillPizzeriaOrderMiddleware/Controllers/FoodController.cs:97-147 | with valid paging, a non-negative 32-bit offset and a filter log row that fits its column: `total` is the number of filtered foods, `totalPages` its ceiling over pageSize, `currentPageSize` the number returned and at most pageSize; the data are the filtered foods sorted by (name, id) from the page's offset; only a log row is written |
| FoodController.SearchLogTooLong | GrillPizzeriaOrderSystem/GrillPizzeriaOrderMiddleware/Controllers/FoodController.cs:136-157 | with valid paging and a non-negative offset, a filter log row longer than the 255-character message column makes the save throw twice (the handler's `log.Error` saves the same refused row): the unhandled 500 and no change, whatever the page holds |
| FoodController.SearchLongQueryFails | GrillPizzeriaOrderSystem/GrillPizzeriaOrderMiddleware/Controllers/FoodController.cs:136-137 | a search text of 175 or more characters always fails that way |
| FoodController.SearchLogMessageLength | GrillPizzeriaOrderSystem/GrillPizzeriaOrderMiddleware/Controllers/FoodController.cs:136-137 | the filter log row is at least 81 characters longer than the search text |
| FoodController.KeyedDistinct | GrillPizzeriaOrderSystem/GrillPizzeriaOrderMiddleware/Controllers/FoodController.cs:126 | foods with unique ids never repeat, so a page cannot show one twice |
| FoodController.FilteredKeysUnique | GrillPizzeriaOrderSystem/GrillPizzeriaOrderMiddleware/Controllers/FoodController.cs:104-117 | filtering keeps ids unique |
| FoodController.OffsetsApart | GrillPizzeriaOrderSystem/GrillPizzeriaOrderMiddleware/Controllers/FoodController.cs:129-131 | for pages whose 32-bit offset does not wrap: the earlier page's offset does not wrap either, and it ends at or before the offset of every later page |
| FoodController.PagesDisjoint | GrillPizzeriaOrderSystem/GrillPizzeriaOrderMiddleware/Controllers/FoodController.cs:125-132 | two different pages whose 32-bit offsets do not wrap share no food |
| FoodController.Search | GrillPizzeriaOrderSystem/GrillPizzeriaOrderMiddleware/Controllers/FoodController.cs:81-158 | performs `SearchOutcome` on the database: its response and its new state, keeping the store valid |
| FoodController.SearchValid | GrillPizzeriaOrderSystem/GrillPizzeriaOrderMiddleware/Controllers/FoodController.cs:97-157 | the search once paging has passed its check: a negative 32-bit offset gives the 500 reply and one error log row; a filter log row too long for its column gives the unhandled 500 and no change; otherwise the reply page and one information log row |
| FoodController.GetAll | GrillPizzeriaOrderSystem/GrillPizzeriaOrderMiddleware/Controllers/FoodController.cs:29-50 | every food, read with its category and allergens, in name order |
| FoodController.GetById | GrillPizzeriaOrderSystem/GrillPizzeriaOrderMiddleware/Controllers/FoodController.cs:55-76 | 404 exactly when no food has the id; otherwise the read of that food, whose allergens are exactly those linked to it by join rows |
| FoodController.CreateChecks | GrillPizzeriaOrderSystem/GrillPizzeriaOrderMiddleware/Controllers/FoodController.cs:164-226 | an invalid body is answered 400 by `[ApiController]` before the action runs and changes nothing; otherwise Created exactly when no food has the name and the category exists; the name is checked before the category and each refusal has its own message and writes only its log row |
| FoodController.CreateWrites | GrillPizzeriaOrderSystem/GrillPizzeriaOrderMiddleware/Controllers/FoodController.cs:191-215 | a successful create appends the mapped food under the next id, links it to exactly the listed allergen ids that exist, keeps other foods' links, and answers with exactly those allergens; nothing else changes |
| FoodController.CreateKeepsInvariants | GrillPizzeriaOrderSystem/GrillPizzeriaOrderMiddleware/Controllers/FoodController.cs:164-226 | create keeps keys, link bounds and food name uniqueness |
| FoodController.CreatedLinksValid | GrillPizzeriaOrderSystem/GrillPizzeriaOrderMiddleware/Controllers/FoodController.cs:203-206 | join rows pointing at allocated food ids keep the store valid |
| FoodController.StoredValid | GrillPizzeriaOrderSystem/GrillPizzeriaOrderMiddleware/Controllers/FoodController.cs:191-193 | inserting a food under the next id keeps the store valid |
| FoodController.Create | GrillPizzeriaOrderSystem/GrillPizzeriaOrderMiddleware/Controllers/FoodController.cs:164-226 | performs `CreateOutcome` on the database |
| FoodController.SaveCreate | GrillPizzeriaOrderSystem/GrillPizzeriaOrderMiddleware/Controllers/FoodController.cs:191-215 | the success path performs `CreateOutcome`'s writes once every check has passed |
| FoodController.UpdateChecks | GrillPizzeriaOrderSystem/GrillPizzeriaOrderMiddleware/Controllers/FoodController.cs:231-299 | an invalid body is answered 400 before the action runs and changes nothing; an unknown id gives 404 and no change; a case-only rename skips the name check and then succeeds exactly when the category exists; success exactly when valid, found, the name is unchanged ignoring case or free, and the category exists; a refusal writes only its log row |
| FoodController.UpdateWrites | GrillPizzeriaOrderSystem/GrillPizzeriaOrderMiddleware/Controllers/FoodController.cs:266-288 | a successful update overwrites exactly the food of that id with the mapped DTO; with a list its links become exactly the listed existing allergens, with no list they are unchanged; other foods' links and other tables are untouched |
| FoodController.UpdateKeepsInvariants | GrillPizzeriaOrderSystem/GrillPizzeriaOrderMiddleware/Controllers/FoodController.cs:231-299 | update keeps keys, link bounds and food name uniqueness |
| FoodController.ReplacedValid | GrillPizzeriaOrderSystem/GrillPizzeriaOrderMiddleware/Controllers/FoodController.cs:266-267 | replacing a stored food by one with the same id keeps the store valid |
| FoodController.Update | GrillPizzeriaOrderSystem/GrillPizzeriaOrderMiddleware/Controllers/FoodController.cs:231-299 | performs `UpdateOutcome` on the database |
| FoodController.SaveUpdate | GrillPizzeriaOrderSystem/GrillPizzeriaOrderMiddleware/Controllers/FoodController.cs:266-288 | the success path performs `UpdateOutcome`'s writes once every check has passed |
| FoodController.DeleteEffect | GrillPizzeriaOrderSystem/GrillPizzeriaOrderMiddleware/Controllers/FoodController.cs:304-326 | an unknown id gives 404 and no change; otherwise exactly that food row is removed and one log row appended |
| FoodController.Delete | GrillPizzeriaOrderSystem/GrillPizzeriaOrderMiddleware/Controllers/FoodController.cs:304-326 | performs `DeleteOutcome` on the database |
| FoodController.SearchNegativeOffsetFails | GrillPizzeriaOrderSystem/GrillPizzeriaOrderMiddleware/Controllers/FoodController.cs:153-157 | valid paging with a negative 32-bit offset: SQL Server's refusal is caught, one "Food.Search failed: " error row is logged and 500 "Internal server error: " + the message is returned |
| FoodController.WrappedOffsets | GrillPizzeriaOrderSystem/GrillPizzeriaOrderMiddleware/Controllers/FoodController.cs:130 | page 33554433 of size 64 fails with 500; page 67108865 of size 64 has offset 0 and lists the same foods as page 1 |
| OrdersController.CreateRejection | GrillPizzeriaOrderSystem/GrillPizzeriaOrderMiddleware/Controllers/OrderController.cs:50-66 | an invalid model is refused first; every refusal is a 400 |
| OrdersController.LinesFor | GrillPizzeriaOrderSystem/GrillPizzeriaOrderMiddleware/Controllers/OrderController.cs:77-80 | one line item per food id, in order, all pointing at the order |
| OrdersController.FoodIdsAcceptedIff | GrillPizzeriaOrderSystem/GrillPizzeriaOrderMiddleware/Controllers/OrderController.cs:60-66 | the count check passes exactly when every id names a stored food and no id repeats |
| OrdersController.CreateAcceptedIff | GrillPizzeriaOrderSystem/GrillPizzeriaOrderMiddleware/Controllers/OrderController.cs:50-66 | create is accepted exactly for a valid model, an existing user and a non-empty list of distinct existing food ids |
| OrdersController.CreateCheckOrder | GrillPizzeriaOrderSystem/GrillPizzeriaOrderMiddleware/Controllers/OrderController.cs:52-57 | an unknown user is refused before the food list is looked at, then an absent or empty list |
| OrdersController.Create | GrillPizzeriaOrderSystem/GrillPizzeriaOrderMiddleware/Controllers/OrderController.cs:48-91 | a refusal leaves the store unchanged; an acceptance appends one order row for the user under a fresh id and one line item per food id, changes nothing else, and answers with the order re-read |
| OrdersController.SaveOrder | GrillPizzeriaOrderSystem/GrillPizzeriaOrderMiddleware/Controllers/OrderController.cs:68-90 | the writes of an accepted create: the order row, then its line items |
| OrdersController.AddLines | GrillPizzeriaOrderSystem/GrillPizzeriaOrderMiddleware/Controllers/OrderController.cs:77-82 | the foreach appends exactly `LinesFor` and changes nothing else |
| OrdersController.LinesNotOf | GrillPizzeriaOrderSystem/GrillPizzeriaOrderMiddleware/Controllers/OrderController.cs:103 | the line items kept are exactly those of other orders |
| OrdersController.DeleteEffect | GrillPizzeriaOrderSystem/GrillPizzeriaOrderMiddleware/Controllers/OrderController.cs:96-105 | after delete no order has the id, one order fewer remains, all others are kept, the order has no line items left and every other order's line items keep their multiplicity |
| OrdersController.NoLinesLeft | GrillPizzeriaOrderSystem/GrillPizzeriaOrderMiddleware/Controllers/OrderController.cs:103 | no line item of the deleted order survives |
| OrdersController.OtherLinesKept | GrillPizzeriaOrderSystem/GrillPizzeriaOrderMiddleware/Controllers/OrderController.cs:103 | line items of other orders survive with their multiplicity |
| OrdersController.Delete | GrillPizzeriaOrderSystem/GrillPizzeriaOrderMiddleware/Controllers/OrderController.cs:94-108 | an unknown id gives 404 and no change; otherwise the order row and its line items are removed, nothing else changes, and the reply is 204 |
| OrdersController.GetAll | GrillPizzeriaOrderSystem/GrillPizzeriaOrderMiddleware/Controllers/OrderController.cs:24-33 | every order read with its items, in the newest-first sort |
| OrdersController.GetAllNewestFirst | GrillPizzeriaOrderSystem/GrillPizzeriaOrderMiddleware/Controllers/OrderController.cs:29 | the listing holds every order once and its dates never increase |
| OrdersController.GetById | GrillPizzeriaOrderSystem/GrillPizzeriaOrderMiddleware/Controllers/OrderController.cs:36-45 | 404 exactly when no order has the id; otherwise the read of that order |
| UserController.ClampTake | GrillPizzeriaOrderSystem/GrillPizzeriaOrderMiddleware/Controllers/UserController.cs:79 | a take outside [1, 200] becomes 50; one inside is kept |
| UserController.ReadAll | GrillPizzeriaOrderSystem/GrillPizzeriaOrderMiddleware/Controllers/UserController.cs:89 | one read DTO per user, in order |
| UserController.GetAll | GrillPizzeriaOrderSystem/GrillPizzeriaOrderMiddleware/Controllers/UserController.cs:79-90 | for skip >= 0: at most the clamped take; entry k is the read of the user at position skip + k in id order |
| UserController.GetAllIncreasing | GrillPizzeriaOrderSystem/GrillPizzeriaOrderMiddleware/Controllers/UserController.cs:84-87 | the listing's ids strictly increase |
| UserController.PageIdsIncrease | GrillPizzeriaOrderSystem/GrillPizzeriaOrderMiddleware/Controllers/UserController.cs:84-87 | any page of the users sorted by id has strictly increasing ids |
| UserController.SortedIdsStrict | GrillPizzeriaOrderSystem/GrillPizzeriaOrderMiddleware/Controllers/UserController.cs:84 | users sorted by id with unique ids have strictly increasing ids |
| UserController.WindowIdsIncrease | GrillPizzeriaOrderSystem/GrillPizzeriaOrderMiddleware/Controllers/UserController.cs:85-86 | a window of a strictly increasing sequence is strictly increasing |
| UserController.SortedIdsIncrease | GrillPizzeriaOrderSystem/GrillPizzeriaOrderMiddleware/Controllers/UserController.cs:84 | two positions of the sorted users are in strict id order |
| UserController.GetAllStored | GrillPizzeriaOrderSystem/GrillPizzeriaOrderMiddleware/Controllers/UserController.cs:81-90 | every entry is the read of a stored user |
| UserController.PageStored | GrillPizzeriaOrderSystem/GrillPizzeriaOrderMiddleware/Controllers/UserController.cs:81-90 | every entry of a page of the sorted users is the read of a stored user |
| UserController.GetAllLength | GrillPizzeriaOrderSystem/GrillPizzeriaOrderMiddleware/Controllers/UserController.cs:79-87 | the page is exactly the clamped take long, or what is left after skipping, or empty |
| UserController.SortedIdsDistinct | GrillPizzeriaOrderSystem/GrillPizzeriaOrderMiddleware/Controllers/UserController.cs:84 | two positions of the sorted users hold different ids |
| UserController.CallerId | GrillPizzeriaOrderSystem/GrillPizzeriaOrderMiddleware/Controllers/UserController.cs:33-34 | the caller's id exists exactly when the claim is present, non-empty and a 32-bit integer, and it is that integer |
| UserController.CallerIdRoundTrip | GrillPizzeriaOrderSystem/GrillPizzeriaOrderMiddleware/Controllers/UserController.cs:33-34 | a claim holding a user's id yields that id; a missing, empty or non-numeric claim yields none |
| UserController.GetMe | GrillPizzeriaOrderSystem/GrillPizzeriaOrderMiddleware/Controllers/UserController.cs:29-66 | 401 exactly for a bad claim, 404 exactly for an unknown caller, otherwise the caller's read with the caller's id |
| UserController.UpdateMeChecks | GrillPizzeriaOrderSystem/GrillPizzeriaOrderMiddleware/Controllers/UserController.cs:115-142 | success exactly for a valid model, a good claim, a stored caller and an email no other user holds; the 401 and 404 cases; a refusal changes nothing |
| UserController.OwnEmailAllowed | GrillPizzeriaOrderSystem/GrillPizzeriaOrderMiddleware/Controllers/UserController.cs:133-135 | keeping one's own email is allowed; another user's email in any letter case is refused |
| UserController.UpdateMeWrites | GrillPizzeriaOrderSystem/GrillPizzeriaOrderMiddleware/Controllers/UserController.cs:137-142 | success rewrites only the caller's row, only through the restricted mapping, and answers with the caller's updated read |
| UserController.UpdateMeKeepsInvariants | GrillPizzeriaOrderSystem/GrillPizzeriaOrderMiddleware/Controllers/UserController.cs:115-142 | keys and email uniqueness are kept |
| UserController.ReplacedUserValid | GrillPizzeriaOrderSystem/GrillPizzeriaOrderMiddleware/Controllers/UserController.cs:138-140 | replacing a stored user by one with the same id keeps the store valid |
| UserController.EmailsStayUnique | GrillPizzeriaOrderSystem/GrillPizzeriaOrderMiddleware/Controllers/UserController.cs:133-140 | taking an email no other user holds keeps emails unique |
| UserController.UpdateMe | GrillPizzeriaOrderSystem/GrillPizzeriaOrderMiddleware/Controllers/UserController.cs:115-142 | performs `UpdateMeOutcome` on the database |
| UserController.GetAllOutcomeCases | GrillPizzeriaOrderSystem/GrillPizzeriaOrderMiddleware/Controllers/UserController.cs:79-105 | a negative skip is refused by SQL Server: 500 "SQL error occurred: " + the message and one "User.GetAll SQL error: " log row; any other skip gives 200 with the `GetAll` page and no change |
| AuthenticationController.RegisterChecks | GrillPizzeriaOrderSystem/GrillPizzeriaOrderMiddleware/Controllers/AuthenticationController.cs:7-41 | success exactly when the body is valid, username and email are free and a "user" role exists; an invalid body is answered 400 by `[ApiController]` before the action runs; a taken username is refused first, then a taken email; a refusal changes nothing |
| AuthenticationController.RegisterWrites | GrillPizzeriaOrderSystem/GrillPizzeriaOrderMiddleware/Controllers/AuthenticationController.cs:26-38 | success appends exactly one user under the next id with the submitted profile fields, the hash of the password and the id of a role named "user"; nothing else changes |
| AuthenticationController.RegisterKeepsInvariants | GrillPizzeriaOrderSystem/GrillPizzeriaOrderMiddleware/Controllers/AuthenticationController.cs:18-41 | keys, username uniqueness and email uniqueness are kept |
| AuthenticationController.InsertedUserValid | GrillPizzeriaOrderSystem/GrillPizzeriaOrderMiddleware/Controllers/AuthenticationController.cs:37-38 | inserting a user under the next id keeps the store valid |
| AuthenticationController.RegisterTwiceRefused | GrillPizzeriaOrderSystem/GrillPizzeriaOrderMiddleware/Controllers/AuthenticationController.cs:20-21 | registering the same request again is refused as a taken username |
| AuthenticationController.Register | GrillPizzeriaOrderSystem/GrillPizzeriaOrderMiddleware/Controllers/AuthenticationController.cs:7-41 | performs `RegisterOutcome` on the database |
| LogsController.GetLast | GrillPizzeriaOrderSystem/GrillPizzeriaOrderMiddleware/Controllers/LogsController.cs:33-36 | for the entries sorted newest first, returns min(n, size) of them, none for n = 0; a negative n is refused before, by `GetLastOutcome` |
| LogsController.Count | GrillPizzeriaOrderSystem/GrillPizzeriaOrderMiddleware/Controllers/LogsController.cs:64-69 | the number of stored log entries |
| LogsController.GetLastNewestFirst | GrillPizzeriaOrderSystem/GrillPizzeriaOrderMiddleware/Controllers/LogsController.cs:34 | timestamps never increase along the result |
| LogsController.GetLastIsNewest | GrillPizzeriaOrderSystem/GrillPizzeriaOrderMiddleware/Controllers/LogsController.cs:33-36 | the result is a sub-multiset of the log, and no entry left out is newer than one returned |
| LogsController.LeftOutIsOlder | GrillPizzeriaOrderSystem/GrillPizzeriaOrderMiddleware/Controllers/LogsController.cs:34-35 | in the newest-first log, every entry of a prefix is at least as new as every entry after it |
| LogsController.GetLastAll | GrillPizzeriaOrderSystem/GrillPizzeriaOrderMiddleware/Controllers/LogsController.cs:33-36 | asking for at least `Count` entries returns the whole log, reordered |
| LogsController.GetLastOutcomeCases | GrillPizzeriaOrderSystem/GrillPizzeriaOrderMiddleware/Controllers/LogsController.cs:29-54 | a negative n is refused by `TOP`: 500 "SQL error occurred: " + the message and one "Log.GetLast SQL error: " log row; otherwise 200 with the min(n, size) newest entries mapped, and no change |
| LogsController.ReadAll | GrillPizzeriaOrderSystem/GrillPizzeriaOrderMiddleware/Controllers/LogsController.cs:38 | one read DTO per entry, in the same order |
| AppLogger.WriteAsync | GrillPizzeriaOrderSystem/GrillPizzeriaOrderMiddleware/Services/AppLogging/AppLogger.cs:18-31 | the new store is `Logged` of the old one: exactly one entry with the level, message and time under a fresh id; nothing else changes |
| AppLogger.Information | GrillPizzeriaOrderSystem/GrillPizzeriaOrderMiddleware/Services/AppLogging/AppLogger.cs:33 | appends one entry of level "Information" |
| AppLogger.Warning | GrillPizzeriaOrderSystem/GrillPizzeriaOrderMiddleware/Services/AppLogging/AppLogger.cs:34 | appends one entry of level "Warning" |
| AppLogger.Error | GrillPizzeriaOrderSystem/GrillPizzeriaOrderMiddleware/Services/AppLogging/AppLogger.cs:35 | appends one entry of level "Error" |
| AppLogger.Logged | GrillPizzeriaOrderSystem/GrillPizzeriaOrderMiddleware/Services/AppLogging/AppLogger.cs:29-30 | the store after one write: one entry under the next id, every other table unchanged |
| AppLogger.LoggedValid | GrillPizzeriaOrderSystem/GrillPizzeriaOrderMiddleware/Services/AppLogging/AppLogger.cs:29-30 | a write keeps the store valid |
| AppLogger.WritesAppend | GrillPizzeriaOrderSystem/GrillPizzeriaOrderMiddleware/Services/AppLogging/AppLogger.cs:18-31 | a batch of writes keeps the old log as a prefix, adds one entry per write in call order with id nextId + k and that write's level, message and time, raises nextId by the number of writes and changes no other table |
| AppLogger.LeveledWritesFit | GrillPizzeriaOrderSystem/GrillPizzeriaOrderMiddleware/Services/AppLogging/AppLogger.cs:33-35 | writes made through `Information`, `Warning` and `Error` keep the store valid, and each new entry's level fits the 20-character level column |
| MappingProfile.UserRead | GrillPizzeriaOrderSystem/GrillPizzeriaOrderMiddleware/MappingProfile.cs:18-19 | the user's columns are copied; the role name exists exactly when a role with the user's role id is stored, and is that role's name |
| MappingProfile.ApplyUserUpdate | GrillPizzeriaOrderSystem/GrillPizzeriaOrderMiddleware/MappingProfile.cs:21-28 | only email, first name, last name and phone come from the DTO; id, username, password hash, role and creation date are kept |
| MappingProfile.UserUpdateFacts | GrillPizzeriaOrderSystem/GrillPizzeriaOrderMiddleware/MappingProfile.cs:21-28 | applying an update twice is applying it once; the read shows the new email, the old username and the old role name |
| MappingProfile.UserUpdateWithOwnValues | GrillPizzeriaOrderSystem/GrillPizzeriaOrderMiddleware/MappingProfile.cs:21-28 | an update restating the user's own values changes nothing |
| MappingProfile.FoodFromCreate | GrillPizzeriaOrderSystem/GrillPizzeriaOrderMiddleware/MappingProfile.cs:33-34 | the DTO's columns are copied, the id is the default 0 and no links are made |
| MappingProfile.ApplyFoodUpdate | GrillPizzeriaOrderSystem/GrillPizzeriaOrderMiddleware/MappingProfile.cs:33-34 | every mapped column is overwritten and the id is kept |
| MappingProfile.FoodUpdateIsCreateWithId | GrillPizzeriaOrderSystem/GrillPizzeriaOrderMiddleware/MappingProfile.cs:33-34 | an update is the fresh mapping with the old id, whatever the old columns were |
| MappingProfile.AllergensOf | GrillPizzeriaOrderSystem/GrillPizzeriaOrderMiddleware/MappingProfile.cs:47 | exactly the stored allergens that a join row links to the food |
| MappingProfile.FoodRead | GrillPizzeriaOrderSystem/GrillPizzeriaOrderMiddleware/MappingProfile.cs:45-47 | columns copied; the category exists exactly when one with the food's category id is stored; the allergens are exactly those linked to the food |
| MappingProfile.AllergensOfIgnoresOtherFoods | GrillPizzeriaOrderSystem/GrillPizzeriaOrderMiddleware/MappingProfile.cs:47 | join rows of other foods do not change a food's allergens |
| MappingProfile.ItemRead | GrillPizzeriaOrderSystem/GrillPizzeriaOrderMiddleware/MappingProfile.cs:55-58 | unit price is the food's price and line total is quantity times unit price; a missing food reads as price 0 and no name |
| MappingProfile.LinesOf | GrillPizzeriaOrderSystem/GrillPizzeriaOrderMiddleware/MappingProfile.cs:51 | exactly the line items of the order |
| MappingProfile.OrderRead | GrillPizzeriaOrderSystem/GrillPizzeriaOrderMiddleware/MappingProfile.cs:50-52 | one item per line item of the order, in order; the total is the stored order total |
| MappingProfile.OrderReadIgnoresOtherOrders | GrillPizzeriaOrderSystem/GrillPizzeriaOrderMiddleware/MappingProfile.cs:50-52 | line items of other orders do not change an order's read |
| MappingProfile.LogRead | GrillPizzeriaOrderSystem/GrillPizzeriaOrderMiddleware/MappingProfile.cs:31 | id, timestamp, level and message are copied |
| DecimalRange.IsValid | GrillPizzeriaOrderSystem/ModelConstants/DecimalRangeAttribute.cs:22-36 | a non-decimal value is always valid; a failure carries the message naming precision and scale |
| DecimalRange.IsValidIff | GrillPizzeriaOrderSystem/ModelConstants/DecimalRangeAttribute.cs:24-35 | a decimal is valid exactly when sign + integer digits + fractional digits fit the precision and the fractional digits fit the scale |
| DecimalRange.RenderedDigits | GrillPizzeriaOrderSystem/ModelConstants/DecimalRangeAttribute.cs:26-28 | the text before '.' has the sign and the integer digits; the text after it has exactly `scale` digits |
| DecimalRange.IntegerText | GrillPizzeriaOrderSystem/ModelConstants/DecimalRangeAttribute.cs:26 | a '-' for a negative value, then the digits of the whole part, with no '.' |
| DecimalRange.FractionText | GrillPizzeriaOrderSystem/ModelConstants/DecimalRangeAttribute.cs:26 | exactly `scale` digits, with no '.' |
| DecimalRange.Split | GrillPizzeriaOrderSystem/ModelConstants/DecimalRangeAttribute.cs:26 | at least one part, none containing the separator |
| DecimalRange.SplitJoin | GrillPizzeriaOrderSystem/ModelConstants/DecimalRangeAttribute.cs:26 | joining the parts of a split gives back the text |
| DecimalRange.SplitAtOnlySeparator | GrillPizzeriaOrderSystem/ModelConstants/DecimalRangeAttribute.cs:26-28 | text with one separator splits into its two sides |
| DecimalRange.IndexOf | GrillPizzeriaOrderSystem/ModelConstants/DecimalRangeAttribute.cs:26 | the position of the first occurrence |
| DecimalRange.NatToStringLength | GrillPizzeriaOrderSystem/ModelConstants/DecimalRangeAttribute.cs:27 | the decimal text of n has `DigitCount(n)` characters |
| DecimalRange.DigitCountBelow | GrillPizzeriaOrderSystem/ModelConstants/DecimalRangeAttribute.cs:30 | a number below 10^k has at most k digits |
| DecimalRange.PriceScaleExamples | GrillPizzeriaOrderSystem/ModelConstants/DecimalRangeAttribute.cs:30 | with (10, 2), 9.50 is valid and a value with three fractional digits is not |
| DecimalRange.PriceSignExample | GrillPizzeriaOrderSystem/ModelConstants/DecimalRangeAttribute.cs:26-30 | 12345678.90 fits (10, 2) exactly; -12345678.90 fails because of its sign |
| ValidationConstants.ClampQuantity | GrillPizzeriaOrderSystem/GrillPizzeriaOrderWebApp/Controllers/OrderController.cs:166 | `Math.Min(max, Math.Max(min, q))` lands in [1, 100] and keeps an in-range quantity |
| OrderCreateDto.ItemErrors | GrillPizzeriaOrderSystem/DTO/Order/OrderCreateDto.cs:16-17 | one error per item whose quantity is out of range, at that item's position, and no other |
| OrderCreateDto.Errors | GrillPizzeriaOrderSystem/DTO/Order/OrderCreateDto.cs:13-24 | a missing list is the only error then; too short exactly when fewer than 1 item; a quantity error at k exactly when item k is out of range |
| OrderCreateDto.OrderValidIff | GrillPizzeriaOrderSystem/DTO/Order/OrderCreateDto.cs:13-24 | an order is valid exactly when present, non-empty and every item is valid |
| OrderCreateDto.QuantityBoundaries | GrillPizzeriaOrderSystem/DTO/Order/OrderCreateDto.cs:16 | 1 and 100 are valid quantities; 0 and 101 are not |
| OrderCreateDto.EmptyOrderInvalid | GrillPizzeriaOrderSystem/DTO/Order/OrderCreateDto.cs:23-24 | the empty list fails only the minimum-length rule |
| ApiOperationResult.Ok | GrillPizzeriaOrderSystem/GrillPizzeriaOrderWebApp/Models/ApiOperationResult.cs:9-10 | succeeded, with the message and no errors |
| ApiOperationResult.Fail | GrillPizzeriaOrderSystem/GrillPizzeriaOrderWebApp/Models/ApiOperationResult.cs:12-13 | failed, with the errors and no message |
| ApiOperationResult.OkWith | GrillPizzeriaOrderSystem/GrillPizzeriaOrderWebApp/Models/ApiOperationResult.cs:20-21 | succeeded, with the data and message and no errors |
| ApiOperationResult.FailWith | GrillPizzeriaOrderSystem/GrillPizzeriaOrderWebApp/Models/ApiOperationResult.cs:23-24 | failed, with the errors, no data and no message |
| ApiOperationResult.GenericAgrees | GrillPizzeriaOrderSystem/GrillPizzeriaOrderWebApp/Models/ApiOperationResult.cs:16-24 | the generic factories agree with the plain ones on the base record |
| ApiOperationResult.FactoriesCharacterise | GrillPizzeriaOrderSystem/GrillPizzeriaOrderWebApp/Models/ApiOperationResult.cs:3-13 | the factories make only consistent results, every consistent result is the output of exactly one of them, and no `Ok` equals a `Fail` |
| Hashing.Sha256 | GrillPizzeriaOrderSystem/GrillPizzeriaOrderMiddleware/Services/AlgoritamCryptography/Hashing.cs:9-21 | the text is the hex rendering of the digest of the key word, built byte by byte |
| Hashing.HexDigits | GrillPizzeriaOrderSystem/GrillPizzeriaOrderMiddleware/Services/AlgoritamCryptography/Hashing.cs:17 | every character is in [0-9a-f] |
| Hashing.HexPairs | GrillPizzeriaOrderSystem/GrillPizzeriaOrderMiddleware/Services/AlgoritamCryptography/Hashing.cs:15-18 | character pair i is the rendering of byte i |
| Hashing.ByteHex | GrillPizzeriaOrderSystem/GrillPizzeriaOrderMiddleware/Services/AlgoritamCryptography/Hashing.cs:17 | two lower-case hex digits |
| Hashing.ByteHexRoundTrip | GrillPizzeriaOrderSystem/GrillPizzeriaOrderMiddleware/Services/AlgoritamCryptography/Hashing.cs:17 | the two digits of a byte read back to the byte |
| Hashing.HexDigitRoundTrip | GrillPizzeriaOrderSystem/GrillPizzeriaOrderMiddleware/Services/AlgoritamCryptography/Hashing.cs:17 | a nibble's digit reads back to the nibble |
| Hashing.UnhexHex | GrillPizzeriaOrderSystem/GrillPizzeriaOrderMiddleware/Services/AlgoritamCryptography/Hashing.cs:13-20 | reading the text back gives the digest, so the rendering loses nothing |
| Hashing.HexInjective | GrillPizzeriaOrderSystem/GrillPizzeriaOrderMiddleware/Services/AlgoritamCryptography/Hashing.cs:13-20 | equal texts come from equal digests |
| Hashing.Hex | GrillPizzeriaOrderSystem/GrillPizzeriaOrderMiddleware/Services/AlgoritamCryptography/Hashing.cs:14-19 | two characters per byte |
| Hashing.DigestLength | GrillPizzeriaOrderSystem/GrillPizzeriaOrderMiddleware/Services/AlgoritamCryptography/Hashing.cs:13-19 | a 32-byte digest renders as 64 characters |
| WebFoodController.GetExtension | GrillPizzeriaOrderSystem/GrillPizzeriaOrderWebApp/Controllers/FoodController.cs:68 | empty, or a '.'-led suffix of the name holding no further '.' and no separator |
| WebFoodController.LastDot | GrillPizzeriaOrderSystem/GrillPizzeriaOrderWebApp/Controllers/FoodController.cs:68 | the last '.' not followed by a separator, if any |
| WebFoodController.ExtensionOfName | GrillPizzeriaOrderSystem/GrillPizzeriaOrderWebApp/Controllers/FoodController.cs:68 | a name ending in '.' and a part without dot or separator has that part as its extension |
| WebFoodController.NoDotNoExtension | GrillPizzeriaOrderSystem/GrillPizzeriaOrderWebApp/Controllers/FoodController.cs:68 | a name without '.' has no extension |
| WebFoodController.DotBeforeSeparator | GrillPizzeriaOrderSystem/GrillPizzeriaOrderWebApp/Controllers/FoodController.cs:68 | a dot inside a folder name is no extension |
| WebFoodController.ExtensionExamples | GrillPizzeriaOrderSystem/GrillPizzeriaOrderWebApp/Controllers/FoodController.cs:68 | ".JPG", ".gz" of "a.b.gz", and no extension for "a" or "a.d/b" |
| WebFoodController.StoredPath | GrillPizzeriaOrderSystem/GrillPizzeriaOrderWebApp/Controllers/FoodController.cs:77-86 | the recorded web path is "/images/" + name + extension |
| WebFoodController.StoredPathFindsSavedFile | GrillPizzeriaOrderSystem/GrillPizzeriaOrderWebApp/Controllers/FoodController.cs:136 | rewriting the recorded web path gives back the file the image was written to |
| WebFoodController.StoredPathRelative | GrillPizzeriaOrderSystem/GrillPizzeriaOrderWebApp/Controllers/FoodController.cs:136 | the trimmed, separator-replaced web path is "images", the separator, then the file name |
| WebFoodController.CheckUploadIff | GrillPizzeriaOrderSystem/GrillPizzeriaOrderWebApp/Controllers/FoodController.cs:66-75 | accepted exactly for a non-empty file of at most 5 MiB whose lower-cased extension is listed; no upload exactly for a missing or empty file; an unlisted extension is refused whatever the size |
| WebFoodController.UploadByExtension | GrillPizzeriaOrderSystem/GrillPizzeriaOrderWebApp/Controllers/FoodController.cs:66-75 | the verdict depends only on the lower-cased extension (checked first) and then the length |
| WebFoodController.UploadSizeBoundary | GrillPizzeriaOrderSystem/GrillPizzeriaOrderWebApp/Controllers/FoodController.cs:74-75 | 5 MiB exactly is accepted, one byte more is refused as too large |
| WebFoodController.UploadUpperCase | GrillPizzeriaOrderSystem/GrillPizzeriaOrderWebApp/Controllers/FoodController.cs:68-71 | an upper-case extension is accepted as its lower-case form |
| WebFoodController.UploadUnlisted | GrillPizzeriaOrderSystem/GrillPizzeriaOrderWebApp/Controllers/FoodController.cs:69-72 | an unlisted extension is refused |
| WebFoodController.ReplyMessageShapes | GrillPizzeriaOrderSystem/GrillPizzeriaOrderWebApp/Controllers/FoodController.cs:100 | a success shows its message and a trailing blank; a failure shows a blank and its errors joined by ", " |
| WebFoodController.Reply | GrillPizzeriaOrderSystem/GrillPizzeriaOrderWebApp/Controllers/FoodController.cs:96-101 | the reply's success flag is the service's and its message the joined message |
| WebFoodController.WebRoot.DeleteIfExists | GrillPizzeriaOrderSystem/GrillPizzeriaOrderWebApp/Controllers/FoodController.cs:137-147 | exactly the file the web path names under `Path.Combine` (rooted and empty paths included) is gone afterwards; no other file changes |
| WebFoodController.FoodForm.SaveUpload | GrillPizzeriaOrderSystem/GrillPizzeriaOrderWebApp/Controllers/FoodController.cs:66-92 | no upload or a refused one changes nothing; an accepted one, once written, records the stored path and adds exactly the saved file; a failed write reports it and records nothing |
| WebFoodController.Create | GrillPizzeriaOrderSystem/GrillPizzeriaOrderWebApp/Controllers/FoodController.cs:46-102 | an invalid model or a refused upload never reaches the service; otherwise the service sees the form's image path after the upload and the reply carries its result |
| WebFoodController.Edit | GrillPizzeriaOrderSystem/GrillPizzeriaOrderWebApp/Controllers/FoodController.cs:114-186 | without `defaultImageKeep` the old image is deleted before the upload is checked (a null path crashes), so even a refused upload loses it; the new file set is the old one, minus the old image unless kept, plus the saved file of a written accepted upload; a failed write answers "Failed to save image." and records no path; the service sees the new path after a written upload and the old one otherwise |
| WebFoodController.Delete | GrillPizzeriaOrderSystem/GrillPizzeriaOrderWebApp/Controllers/FoodController.cs:199-245 | the reply carries the service's result; the image file is removed exactly when the delete succeeded and the food had a non-empty image path |
| WebFoodController.DeleteImageOnlyOnSuccess | GrillPizzeriaOrderSystem/GrillPizzeriaOrderWebApp/Controllers/FoodController.cs:223 | the delete condition holds exactly for a success with a non-empty image path, and never for a failure |
| WebFoodController.Combine | GrillPizzeriaOrderSystem/GrillPizzeriaOrderWebApp/Controllers/FoodController.cs:136 | `Path.Combine`: an empty part gives the other, a rooted second part (a leading separator, or a drive letter and ':' on Windows) is returned alone, otherwise the two are joined by exactly one separator |
| WebFoodController.FilePathEdgeCases | GrillPizzeriaOrderSystem/GrillPizzeriaOrderWebApp/Controllers/FoodController.cs:136 | an empty web path names the web root itself; on Windows "C:/x" names C:\x, outside the web root |
| WebOrderController.IndexOfFood | GrillPizzeriaOrderSystem/GrillPizzeriaOrderWebApp/Controllers/OrderController.cs:153 | the first position holding the food, or none when no item holds it |
| WebOrderController.AddedWellFormed | GrillPizzeriaOrderSystem/GrillPizzeriaOrderWebApp/Controllers/OrderController.cs:152-167 | adding keeps the cart well formed (positive ids, one item per food, quantities in range) and non-empty |
| WebOrderController.AddedEffect | GrillPizzeriaOrderSystem/GrillPizzeriaOrderWebApp/Controllers/OrderController.cs:153-167 | a new food appends one item of quantity 1; a present one gets min(100, max(1, q + 1)) with q + 1 computed in 32 bits; other items never change |
| WebOrderController.AddedCount | GrillPizzeriaOrderSystem/GrillPizzeriaOrderWebApp/Controllers/OrderController.cs:152-183 | the count grows by one, except at the 100 cap |
| WebOrderController.DropWellFormed | GrillPizzeriaOrderSystem/GrillPizzeriaOrderWebApp/Controllers/OrderController.cs:230 | dropping an item keeps the cart well formed |
| WebOrderController.ReplaceWellFormed | GrillPizzeriaOrderSystem/GrillPizzeriaOrderWebApp/Controllers/OrderController.cs:226 | an in-range quantity change keeps the cart well formed |
| WebOrderController.RemovedShape | GrillPizzeriaOrderSystem/GrillPizzeriaOrderWebApp/Controllers/OrderController.cs:223-231 | a quantity above 1 goes down by one; an item of quantity 1 is removed |
| WebOrderController.RemovedWellFormed | GrillPizzeriaOrderSystem/GrillPizzeriaOrderWebApp/Controllers/OrderController.cs:222-231 | removing keeps the cart well formed |
| WebOrderController.RemovedCount | GrillPizzeriaOrderSystem/GrillPizzeriaOrderWebApp/Controllers/OrderController.cs:222-251 | the count goes down by exactly one |
| WebOrderController.RemoveUndoesAppend | GrillPizzeriaOrderSystem/GrillPizzeriaOrderWebApp/Controllers/OrderController.cs:222-231 | removing a food just appended gives the cart back |
| WebOrderController.RemoveUndoesIncrement | GrillPizzeriaOrderSystem/GrillPizzeriaOrderWebApp/Controllers/OrderController.cs:224-226 | removing a food just incremented gives the cart back |
| WebOrderController.RemoveUndoesAdd | GrillPizzeriaOrderSystem/GrillPizzeriaOrderWebApp/Controllers/OrderController.cs:222-231 | below the cap, remove after add is the identity |
| WebOrderController.QuantitySumAppend | GrillPizzeriaOrderSystem/GrillPizzeriaOrderWebApp/Controllers/OrderController.cs:183 | the count of two carts together is the sum of their counts |
| WebOrderController.QuantitySumUpdate | GrillPizzeriaOrderSystem/GrillPizzeriaOrderWebApp/Controllers/OrderController.cs:226 | changing one quantity changes the count by the difference |
| WebOrderController.QuantitySumRemove | GrillPizzeriaOrderSystem/GrillPizzeriaOrderWebApp/Controllers/OrderController.cs:230 | dropping an item lowers the count by its quantity |
| WebOrderController.LineOf | GrillPizzeriaOrderSystem/GrillPizzeriaOrderWebApp/Controllers/OrderController.cs:55-63 | a line's unit price is the food's price and its total is price times quantity |
| WebOrderController.CartTotalMatchesLines | GrillPizzeriaOrderSystem/GrillPizzeriaOrderWebApp/Controllers/OrderController.cs:48-69 | the total is the sum of the line totals; every line is a known food priced from the menu; there are at most as many lines as items |
| WebOrderController.UnknownFoodSkipped | GrillPizzeriaOrderSystem/GrillPizzeriaOrderWebApp/Controllers/OrderController.cs:52-53 | an unknown food adds no line and nothing to the total; an empty cart costs 0 |
| WebOrderController.SumQuantities | GrillPizzeriaOrderSystem/GrillPizzeriaOrderWebApp/Controllers/OrderController.cs:183 | the loop computes the count of the cart |
| WebOrderController.FindFood | GrillPizzeriaOrderSystem/GrillPizzeriaOrderWebApp/Controllers/OrderController.cs:153 | the loop finds the first item of the food, or reports none |
| WebOrderController.CartSession.AddItem | GrillPizzeriaOrderSystem/GrillPizzeriaOrderWebApp/Controllers/OrderController.cs:120-186 | a food id <= 0 is refused and the cookie kept; otherwise the cookie holds the upserted cart and the reply its count; a well-formed cart stays well formed |
| WebOrderController.CartSession.RemoveItem | GrillPizzeriaOrderSystem/GrillPizzeriaOrderWebApp/Controllers/OrderController.cs:190-253 | a bad id, an empty cart and an absent food are refused with the cookie kept; otherwise the cookie holds the changed cart, or is deleted when it is empty, and the reply is its count |
| WebOrderController.CartSession.GetCart | GrillPizzeriaOrderSystem/GrillPizzeriaOrderWebApp/Controllers/OrderController.cs:30-70 | the priced lines of the known foods and their total |
| WebOrderController.CartSession.CreateOrder | GrillPizzeriaOrderSystem/GrillPizzeriaOrderWebApp/Controllers/OrderController.cs:257-275 | an empty cart is refused; a successful submit deletes the cookie; a failed one keeps it and shows the service's message or the default |
| WebOrderController.GuardOnlyWithoutCookie | GrillPizzeriaOrderSystem/GrillPizzeriaOrderWebApp/Controllers/OrderController.cs:259-265 | for carts this controller writes, the empty-cart guard fires exactly when there is no cookie |
| Tables.First | GrillPizzeriaOrderSystem/GrillPizzeriaOrderMiddleware/Controllers/FoodController.cs:62 | the first row satisfying the predicate, present exactly when one exists |
| Tables.Find | GrillPizzeriaOrderSystem/GrillPizzeriaOrderMiddleware/Controllers/AllergenController.cs:55 | the row with the key, absent exactly when no row has it |
| Tables.FindUnique | GrillPizzeriaOrderSystem/GrillPizzeriaOrderMiddleware/Controllers/AllergenController.cs:55 | with unique keys, `Find` returns the one row with that key |
| Tables.Filter | GrillPizzeriaOrderSystem/GrillPizzeriaOrderMiddleware/Controllers/FoodController.cs:108-117 | the rows satisfying the predicate, each with its multiplicity, in order |
| Tables.RemoveKey | GrillPizzeriaOrderSystem/GrillPizzeriaOrderMiddleware/Controllers/AllergenController.cs:158 | exactly the rows with another key remain |
| Tables.ReplaceKey | GrillPizzeriaOrderSystem/GrillPizzeriaOrderMiddleware/Controllers/AllergenController.cs:132-133 | the row of the key is replaced in place and every other row kept |
| Tables.KeysIn | GrillPizzeriaOrderSystem/GrillPizzeriaOrderMiddleware/Controllers/FoodController.cs:198-201 | exactly the listed keys present in the table, in table order |
| Tables.KeysInUnique | GrillPizzeriaOrderSystem/GrillPizzeriaOrderMiddleware/Controllers/FoodController.cs:198-201 | with unique keys the selected keys do not repeat |
| Tables.RemoveKeyWellKeyed | GrillPizzeriaOrderSystem/GrillPizzeriaOrderMiddleware/Controllers/AllergenController.cs:158-159 | removing keeps keys valid, removes the key and at most one row |
| Tables.AppendWellKeyed | GrillPizzeriaOrderSystem/GrillPizzeriaOrderMiddleware/Controllers/AllergenController.cs:91-92 | appending under a fresh id keeps keys valid |
| Tables.ReplaceWellKeyed | GrillPizzeriaOrderSystem/GrillPizzeriaOrderMiddleware/Controllers/AllergenController.cs:132-133 | replacing a row by one with the same key keeps keys valid |
| Catalog.AppendKeepsNamesUnique | GrillPizzeriaOrderSystem/GrillPizzeriaOrderMiddleware/Controllers/AllergenController.cs:83-92 | inserting under a free name keeps names unique |
| Catalog.RenameKeepsNamesUnique | GrillPizzeriaOrderSystem/GrillPizzeriaOrderMiddleware/Controllers/AllergenController.cs:122-133 | a rename to a name the database takes as the old one, or to a free name, keeps names unique |
| Catalog.RemoveKeepsNamesUnique | GrillPizzeriaOrderSystem/GrillPizzeriaOrderMiddleware/Controllers/AllergenController.cs:158 | removing a row keeps names unique |
| Collation.DbEqualsFacts | GrillPizzeriaOrderSystem/GrillPizzeriaOrderMiddleware/Controllers/AllergenController.cs:83 | the query comparison is case-insensitive equality after dropping trailing spaces; an equivalence implied by ordinal and by case-insensitive equality |
| Collation.Unpadded | GrillPizzeriaOrderSystem/GrillPizzeriaOrderMiddleware/Controllers/AllergenController.cs:83 | the value without its trailing spaces: a prefix ending in a non-space, with only spaces cut |
| Collation.UnpaddedIgnoresCase | GrillPizzeriaOrderSystem/GrillPizzeriaOrderMiddleware/Controllers/AllergenController.cs:83 | values equal ignoring case keep equal once their trailing spaces are dropped |
| Collation.DbEqualsIgnoresCase | GrillPizzeriaOrderSystem/GrillPizzeriaOrderMiddleware/Controllers/AllergenController.cs:83 | "pizza", "PIZZA" and "Pizza " are the same name in a query; "pizza" and "pasta" are not |
| Ordering.SortByKey | GrillPizzeriaOrderSystem/GrillPizzeriaOrderMiddleware/Controllers/AllergenController.cs:32-34 | a permutation of the table |
| Ordering.SortByKeySorted | GrillPizzeriaOrderSystem/GrillPizzeriaOrderMiddleware/Controllers/AllergenController.cs:32-34 | the result is in key order |
| Ordering.InsertByKeySorted | GrillPizzeriaOrderSystem/GrillPizzeriaOrderMiddleware/Controllers/AllergenController.cs:32-34 | inserting into a sorted table keeps it sorted |
| Ordering.LexLeTotal | GrillPizzeriaOrderSystem/GrillPizzeriaOrderMiddleware/Controllers/AllergenController.cs:33 | any two names are comparable |
| Ordering.LexLeTransitive | GrillPizzeriaOrderSystem/GrillPizzeriaOrderMiddleware/Controllers/AllergenController.cs:33 | the name order is transitive |
| Ordering.LexLeAntisymmetric | GrillPizzeriaOrderSystem/GrillPizzeriaOrderMiddleware/Controllers/AllergenController.cs:33 | names ordered both ways are equal |
| Ordering.KeyLeTotal | GrillPizzeriaOrderSystem/GrillPizzeriaOrderMiddleware/Controllers/FoodController.cs:126 | any two sort keys are comparable |
| Ordering.KeyLeTransitive | GrillPizzeriaOrderSystem/GrillPizzeriaOrderMiddleware/Controllers/FoodController.cs:126 | the key order is transitive |
| Ordering.KeyLeAntisymmetric | GrillPizzeriaOrderSystem/GrillPizzeriaOrderMiddleware/Controllers/FoodController.cs:126 | keys ordered both ways are equal |
| Ordering.SortKeepsDistinct | GrillPizzeriaOrderSystem/GrillPizzeriaOrderMiddleware/Controllers/FoodController.cs:126 | sorting keeps a table free of duplicates |
| Ordering.Skip | GrillPizzeriaOrderSystem/GrillPizzeriaOrderMiddleware/Controllers/UserController.cs:85 | `Skip` over rows already read: a count of 0 skips nothing, otherwise the rows after the count (a negative count, which SQL Server refuses, is handled before it is reached) |
| Ordering.Take | GrillPizzeriaOrderSystem/GrillPizzeriaOrderMiddleware/Controllers/UserController.cs:86 | a count of 0 or less takes nothing; otherwise the first rows up to the count |
| Ordering.Slice | GrillPizzeriaOrderSystem/GrillPizzeriaOrderMiddleware/Controllers/FoodController.cs:129-131 | at most `size` rows, each the row at offset + k |
| Ordering.SlicesDisjoint | GrillPizzeriaOrderSystem/GrillPizzeriaOrderMiddleware/Controllers/FoodController.cs:129-131 | slices with non-overlapping ranges of a duplicate-free table share no row |
| Ordering.TakeThenSlice | GrillPizzeriaOrderSystem/GrillPizzeriaOrderMiddleware/Controllers/FoodController.cs:129-131 | the rows before an offset, then the page at it, are the rows before the page's end |
| Ordering.PagesCover | GrillPizzeriaOrderSystem/GrillPizzeriaOrderMiddleware/Controllers/FoodController.cs:129-131 | the first n pages together are the first n * size rows, so pages cover the table |
| Text.ParseInt32 | GrillPizzeriaOrderSystem/GrillPizzeriaOrderMiddleware/Controllers/UserController.cs:34 | a parsed value lies in the 32-bit range |
| Text.ParseIntToString | GrillPizzeriaOrderSystem/GrillPizzeriaOrderMiddleware/Controllers/UserController.cs:34 | parsing an in-range integer's text gives the integer back |
| Text.ParseRejectsNonNumbers | GrillPizzeriaOrderSystem/GrillPizzeriaOrderMiddleware/Controllers/UserController.cs:34 | empty, alphabetic and sign-only texts are not numbers |
| Text.IntToString | GrillPizzeriaOrderSystem/ModelConstants/DecimalRangeAttribute.cs:26 | the text has a '-' exactly for a negative number, and otherwise only digits |
| Text.DigitsValueOfNatToString | GrillPizzeriaOrderSystem/ModelConstants/DecimalRangeAttribute.cs:26 | the decimal text of n reads back as n |
| Text.Trim | GrillPizzeriaOrderSystem/GrillPizzeriaOrderMiddleware/Controllers/FoodController.cs:107 | drops exactly the leading and trailing white space of `char.IsWhiteSpace` (including U+0085, U+00A0, U+1680, U+2000-U+200A, U+2028, U+2029, U+202F, U+205F, U+3000); no white space is left at either end |
| Text.TrimEmptyIffWhite | GrillPizzeriaOrderSystem/GrillPizzeriaOrderMiddleware/Controllers/FoodController.cs:105 | a text trims to empty exactly when `string.IsNullOrWhiteSpace` holds for it, over the same Unicode white-space set |
| Text.ToLower | GrillPizzeriaOrderSystem/GrillPizzeriaOrderWebApp/Controllers/FoodController.cs:68 | each character lower-cased |
| Text.EqualsIgnoreCaseFacts | GrillPizzeriaOrderSystem/GrillPizzeriaOrderMiddleware/Controllers/AllergenController.cs:122 | ordinal equality implies case-insensitive equality, which is symmetric |
| Text.TrimStart | GrillPizzeriaOrderSystem/GrillPizzeriaOrderWebApp/Controllers/FoodController.cs:136 | drops exactly the leading run of the character |
| Text.Replace | GrillPizzeriaOrderSystem/GrillPizzeriaOrderWebApp/Controllers/FoodController.cs:136 | each occurrence of one character replaced by the other, nothing else changed |
| Store.Database.NewId | GrillPizzeriaOrderSystem/GrillPizzeriaOrderMiddleware/Controllers/AllergenController.cs:91-92 | the identity column hands out the next id and advances the counter; nothing else changes |
| Catalog.FilterKeepsNamesUnique | GrillPizzeriaOrderSystem/GrillPizzeriaOrderMiddleware/Controllers/FoodController.cs:108-117 | filtering a uniquely named table keeps names unique |
| Collation.Fold | GrillPizzeriaOrderSystem/GrillPizzeriaOrderMiddleware/Controllers/AllergenController.cs:83 | the comparison key upper-cases each ASCII letter and keeps the length |
| Text.NatToString | GrillPizzeriaOrderSystem/ModelConstants/DecimalRangeAttribute.cs:26 | decimal digits only, one digit exactly for numbers below 10 |
| Text.TrimEndKeepsNonWhite | GrillPizzeriaOrderSystem/GrillPizzeriaOrderMiddleware/Controllers/FoodController.cs:107 | trimming the end keeps every position up to the last non-white character |
| Text.NoBreakSpaceIsBlank | GrillPizzeriaOrderSystem/GrillPizzeriaOrderMiddleware/Controllers/FoodController.cs:105-107 | U+00A0 is white space: a query made of it is blank and trims to empty, while `int.Parse` does not skip it |
| Text.TrimStartWhite | GrillPizzeriaOrderSystem/GrillPizzeriaOrderMiddleware/Controllers/FoodController.cs:107 | drops exactly the leading run of characters of the chosen white-space set |
| Text.TrimEndWhite | GrillPizzeriaOrderSystem/GrillPizzeriaOrderMiddleware/Controllers/FoodController.cs:107 | drops exactly the trailing run of characters of the chosen white-space set |
| Ordering.InsertByKey | GrillPizzeriaOrderSystem/GrillPizzeriaOrderMiddleware/Controllers/AllergenController.cs:32-34 | one row more, the same rows plus the inserted one |
| Ordering.DistinctCardinality | GrillPizzeriaOrderSystem/GrillPizzeriaOrderMiddleware/Controllers/FoodController.cs:126 | a table has as many distinct rows as rows exactly when none repeats |
| WebOrderController.IndexOfFoodAt | GrillPizzeriaOrderSystem/GrillPizzeriaOrderWebApp/Controllers/OrderController.cs:153 | the first item holding the food is the one `FirstOrDefault` finds |
| WebOrderController.LinesTotalAppend | GrillPizzeriaOrderSystem/GrillPizzeriaOrderWebApp/Controllers/OrderController.cs:55-56 | the total of two line lists together is the sum of their totals |
| DecimalRange.DigitCount | GrillPizzeriaOrderSystem/ModelConstants/DecimalRangeAttribute.cs:27 | every number has at least one digit |
| WebOrderController.CartSession.constructor | GrillPizzeriaOrderSystem/GrillPizzeriaOrderWebApp/Controllers/OrderController.cs:32 | a new session has no cart cookie |
| WebOrderController.AddedAtMaxWraps | GrillPizzeriaOrderSystem/GrillPizzeriaOrderWebApp/Controllers/OrderController.cs:165-166 | an item at `int.MaxValue` wraps to `int.MinValue` on the increment and is clamped to 1 |
| Int32.Wrap | GrillPizzeriaOrderSystem/GrillPizzeriaOrderMiddleware/Controllers/FoodController.cs:130 | the unchecked 32-bit result of C# int arithmetic: always in the int range, congruent to the exact value modulo 2^32, and the exact value whenever that fits |

## Left out

- Database and file I/O failures: connection losses, timeouts and failed saves (the `DbUpdateException` handlers and the 503 replies) are not modelled; every save succeeds, and a file write's success is a `written` parameter. Three kinds of refusal by SQL Server are modelled, with the error texts as constants in `Store`: a negative OFFSET (`FoodController.SearchFound` and `UserController.GetAllOutcome`); a negative TOP (`LogsController.GetLastOutcome`); and a search filter log row longer than the message column (`FoodController.SearchLogTooLong`). Every other log message (ids, stored names, fixed texts) is taken to fit its column, and lengths are counted in characters, not UTF-16 units.
- The automatic 400 of `[ApiController]` model validation: `ModelState.IsValid` is a `modelValid` parameter of each action that takes a body (`Register` included). An invalid body is refused before the action runs, so the actions' own `ModelState` checks and their "Bad Request" log rows are never reached; the details of the refusal (which attribute failed, the problem-details body) are not modelled.
- Cascade deletes: deleting a food, category or allergen removes only its own row; deleting an order removes its line items explicitly, as the code does.
- Entity Framework change tracking, `Include` and `AsNoTracking`: reads see the current tables directly.
- Database collation: `OrderBy` on names is ordinal. `==` in queries ignores trailing spaces and folds ASCII letters only; SQL Server's default collation also folds accented letters. The in-memory `Text.EqualsIgnoreCase` (`OrdinalIgnoreCase`) likewise folds ASCII letters only, while .NET also folds letters such as 'é' and 'É'.
- `EF.Functions.Like` wildcards: `%`/`_` inside the query string are taken as plain characters, so the filter is a substring test.
- Name mismatches between controllers and view models are resolved as noted above; `AuthenticationController.Register` reads `registerUser` where the code names an undeclared `dto`.
- `Sha1Hasher` and the SHA-256 digest itself (FIPS 180-4) with the UTF-8 encoding: the digest function is a parameter of `Hashing.Sha256`; the JWT token issued at login is not modelled.
- Random file names (`Guid.NewGuid`), the clock (`DateTime.UtcNow`) and file writes are parameters.
- Platform paths: the directory separator is the `sep` parameter of `WebRoot`, restricted to '/' or '\\'; `Path.Combine` is modelled with its empty and rooted cases (a leading separator, and on Windows a drive letter and ':'), but not UNC paths, invalid path characters or `Path.GetFullPath` normalisation.
- The cart cookie's JSON encoding, its expiry and other options. The quantity increment wraps in 32 bits as in C#; the checked `Sum` of the quantities (which would throw on overflow) is an unbounded sum, since a well-formed cart's quantities are at most 100 each.
- `OrderFood.Quantity` and `Order.TotalPrice` are never set by `OrdersController.Create`, so they stay 0 in the model as in the code.
- The identity columns of all tables share one counter; ids are unique and increasing per table, as the database guarantees, but not consecutive per table.
- The food create/update DTO files are not part of this model; their fields are taken as the entity's mapped columns.
- `FoodCategoryController.GetAll` (an unordered read of the whole table) and the web `GetMyOrders` action (a view mapping of the service's reply) are not modelled.
- Culture-specific formatting of decimals: `DecimalRange.IsValid` renders with '.' as the separator.
- `WebFoodController.Edit` deletes the old image before it checks the upload; the model keeps that order.
- `Log.Timestamp` is the `now` parameter of `AppLogger.WriteAsync`.
- The framework loggers (`ILogger<T>` calls beside the audit log) write nowhere the model can see and are not modelled.
- Authentication middleware and authorization policies (`[Authorize]`, JWT validation): the claim is an input of the identity actions.
- FoodController.OffsetsApart: holds only for pages whose 32-bit offset `(page - 1) * pageSize` does not wrap; `FoodController.WrappedOffsets` shows page 67108865 of size 64 repeating page 1.
- FoodController.PagesDisjoint: holds only for pages whose 32-bit offsets do not wrap, for the same reason.
- FoodController.SearchPageContents: states the page for a non-negative 32-bit offset and a log row that fits its column; a negative offset fails as `FoodController.SearchNegativeOffsetFails` states, and a row too long fails as `FoodController.SearchLogTooLong` states.
- UserController.GetAll: is the page of a non-negative `skip`; a negative one is SQL Server's error, as `UserController.GetAllOutcomeCases` states.
