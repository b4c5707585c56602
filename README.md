# Marketplace server: catalog, credentials and token gate in Dafny

This project models the core of a small Ktor/Exposed marketplace backend:

- **Catalog store** (`MarketItemService`): the `MarketItems` table of products. Create, update, delete and delete-all write to it. Paging, distinct categories, exact-category filter and case-insensitive title-prefix search read from it.
- **Credential store** (`UserService`): the `Users` table, with a unique index on `email`. Create, update and delete write to it, and lookup is by email. `createJWT` mints the bearer token for a user.
- **Token gate** (`configureSecurity`): the JWT verifier (HMAC256 secret, audience, issuer) and its `validate` step. They stand in front of every `/products` route.
- **Routes** (`configureDatabases`): the request handlers. They default and validate `limit`/`skip`, reject missing parameters, parse ids, and decide the register and login outcomes.

Each table is a class holding its rows as a sequence in insertion order, plus the next value of its serial id sequence. Writes are methods whose postconditions give the new rows in terms of the old ones. Each class has a `Valid()` invariant: ids ascend, every id is below the next one, and for users, emails are unique. Queries and the handlers that only read are functions of the rows. Tokens are claim records. A signature records the key, the algorithm and the claims it covers. So "the signature checks under key k" means "it was made with k over exactly these claims".

Modules follow the source files:

| file | module | source |
|---|---|---|
| `market_item_schema.dfy` | `MarketItemSchema` | `src/main/kotlin/MarketItemSchema.kt` |
| `user_schema.dfy` | `UserSchema` | `src/main/kotlin/UserSchema.kt` |
| `security.dfy` | `Security` | `src/main/kotlin/Security.kt` |
| `databases.dfy` | `Databases` | `src/main/kotlin/Databases.kt` |
| `jwt.dfy` | `Jwt` | JWT claims and HMAC256 signing, as the auth0 library does them |
| `text.dfy` | `Text` | Kotlin `toIntOrNull`/`toString`, `lowercase`, PostgreSQL `LIKE` |
| `seqs.dfy` | `Seqs` | order-keeping filter, first index, distinct, key-ascending tables and lookup by key |
| `common.dfy` | `Common` | `Option` (Kotlin `null`), `Result`, `Outcome`, `Int32` |

The model follows the code as written. Three behaviours worth knowing:

- Registration never inserts the user (see Findings).
- `DELETE /products/{id}` accepts any `Int`, negative ones included.
- The token verifier checks the issuer as well as the audience.

## Model

| member | source | states |
|---|---|---|
| `MarketItemSchema.ReadBackAfterWrite` | src/main/kotlin/MarketItemSchema.kt:124-137 | Reading back a written item gives it under its new id. Its `images` become `[images[0]]`, or `[""]` when the list was empty. All other fields are kept. |
| `MarketItemSchema.WriteBackAfterRead` | src/main/kotlin/MarketItemSchema.kt:68-81 | Writing back the columns of a row that was read gives the same row. |
| `MarketItemSchema.MapDtoCount` | src/main/kotlin/MarketItemSchema.kt:124-137 | `toDto` keeps every column, so a row occurs in a list of rows exactly as often as its item occurs in the mapped list. |
| `MarketItemSchema.MarketItemService.constructor` | src/main/kotlin/MarketItemSchema.kt:47-51 | A fresh table is empty and its id sequence starts at 1. |
| `MarketItemSchema.MarketItemService.Create` | src/main/kotlin/MarketItemSchema.kt:53-66 | Exactly one row is appended, under the next serial id, and that id is returned. The id differs from every existing id. The earlier rows are unchanged. Once the sequence has passed the largest `Int`, the insert fails and nothing changes. |
| `MarketItemSchema.MarketItemService.Update` | src/main/kotlin/MarketItemSchema.kt:68-81 | The row with the matching id gets every column except the id replaced. Every other row is unchanged, and so is the table when no row matches. Returns the number of rows updated. |
| `MarketItemSchema.MarketItemService.Delete` | src/main/kotlin/MarketItemSchema.kt:83-87 | Exactly the row with the matching id is removed, and the others keep their order. With no matching row, nothing happens. |
| `MarketItemSchema.MarketItemService.DeleteAll` | src/main/kotlin/MarketItemSchema.kt:89-91 | The table is left empty, and the number of rows removed is returned. |
| `MarketItemSchema.GetPaged` | src/main/kotlin/MarketItemSchema.kt:93-98 | Returns the slice `rows[skip .. skip+limit)` as items. Its length is `max(0, min(limit, n - skip))`. |
| `MarketItemSchema.PagesConcatenate` | src/main/kotlin/MarketItemSchema.kt:93-98 | The page `(a, skip)` followed by the page `(b, skip + a)` is the page `(a + b, skip)`. |
| `MarketItemSchema.GetAllCategories` | src/main/kotlin/MarketItemSchema.kt:100-105 | Contains every row's category. Every element is some row's category. No element appears twice. |
| `MarketItemSchema.GetByCategory` | src/main/kotlin/MarketItemSchema.kt:107-112 | Every result has that category. Every row with that category is in the result, as many times as it occurs in the table. The results keep table order. |
| `MarketItemSchema.Search` | src/main/kotlin/MarketItemSchema.kt:114-119 | Every result's lower-cased title matches `lower(q) + '%'` under `LIKE`. Every matching row is in the result, as many times as it occurs in the table. The results keep table order. |
| `MarketItemSchema.SearchIsPrefixMatch` | src/main/kotlin/MarketItemSchema.kt:117 | For a query with no `%`, `_` or `\`, the results are exactly the rows whose lower-cased title starts with the lower-cased query. |
| `MarketItemSchema.SearchEmptyQueryMatchesAll` | src/main/kotlin/MarketItemSchema.kt:117 | The empty query returns every row. |
| `MarketItemSchema.SearchIsCaseInsensitivePrefix` | src/main/kotlin/MarketItemSchema.kt:117 | The query `abc` matches the title `ABCdef` and does not match `xABC`. |
| `Text.LikePrefix` | src/main/kotlin/MarketItemSchema.kt:117 | `s LIKE q || '%'` holds exactly when `q` is a prefix of `s`, for `q` without `LIKE` metacharacters. |
| `Text.ToIntOrNullRoundTrip` | src/main/kotlin/Databases.kt:29-30 | `toIntOrNull` of the decimal text of any `Int` gives that `Int` back. |
| `Text.ToIntOrNullRejects` | src/main/kotlin/Databases.kt:73 | The empty string, a lone sign and any text containing an ASCII letter, upper- or lower-case, parse to `null`. |
| `Seqs.Distinct` | src/main/kotlin/MarketItemSchema.kt:103 | No element appears twice. Every element is from the input, and every input element is kept. |
| `Seqs.Filter` | src/main/kotlin/MarketItemSchema.kt:110 | Returns exactly the elements satisfying the condition, as a subsequence of the input. Each one appears as often as in the input. |
| `UserSchema.UserService.constructor` | src/main/kotlin/UserSchema.kt:29-33 | A fresh table is empty and its id sequence starts at 1. |
| `UserSchema.UserService.Create` | src/main/kotlin/UserSchema.kt:35-41 | For a new email, one row with the given name, email and password is appended under a fresh id, and that id is returned. For an email already present, it fails with a unique violation and leaves the rows unchanged. Once the sequence is exhausted it fails and nothing changes. |
| `UserSchema.UserService.Update` | src/main/kotlin/UserSchema.kt:56-64 | Replaces name, email and password of only the row with the matching id. With no matching row, nothing happens. It fails, with no change, when another row already holds the new email. |
| `UserSchema.UserService.Delete` | src/main/kotlin/UserSchema.kt:66-70 | Removes only the row with the matching id. With no matching row, nothing happens. Emails stay unique. |
| `UserSchema.ReadByEmail` | src/main/kotlin/UserSchema.kt:43-54 | A result is the stored name, email and password of a row with that email. When no row has the email, the result is `null`. |
| `UserSchema.ReadByEmailUnique` | src/main/kotlin/UserSchema.kt:43-54 | With unique emails, the lookup succeeds exactly when some row has the email, and then returns that row's user. |
| `UserSchema.CreateJWT` | src/main/kotlin/UserSchema.kt:75-87 | The token is signed with `"secret"`. Its issuer is `https://jwt-provider-domain/`, its audience is `[jwt-audience]` and its subject is the user's email. Its only claims are `name` and `email`, equal to the user's fields. |
| `UserSchema.CreateJWTIgnoresPassword` | src/main/kotlin/UserSchema.kt:80-86 | The token depends only on name and email. No claim holds the password. |
| `Jwt.TamperedClaimsRejected` | src/main/kotlin/Security.kt:21 | Changing a signed token's claims makes its signature fail under the same key. |
| `Security.Validate` | src/main/kotlin/Security.kt:26-30 | Yields a principal exactly when the audience list holds the configured audience. The principal's name is the token's subject. Otherwise it yields `null`. |
| `Security.Authenticate` | src/main/kotlin/Security.kt:16-31 | Yields a principal exactly when a bearer token is present, signed with the secret, issued by the configured domain and addressed to the configured audience. The principal is named by the subject. |
| `Security.AcceptedIssuer` | src/main/kotlin/Security.kt:23 | An accepted token's issuer is the configured domain. |
| `Security.RejectedTokens` | src/main/kotlin/Security.kt:19-25 | A bad signature, a foreign issuer or a missing audience each lead to rejection. |
| `Security.IssueVerifyRoundTrip` | src/main/kotlin/Security.kt:14-28 | With the audience and domain configured to the issuer's values, a token minted for a user is accepted as a principal named by the user's email. |
| `Security.MintedTokensNeedMatchingDomain` | src/main/kotlin/Security.kt:12-23 | With any other domain configured, no minted token is accepted. |
| `Databases.GetProducts` | src/main/kotlin/Databases.kt:28-43 | Responds BadRequest exactly when the defaulted `limit` or `skip` is negative. Otherwise it responds OK with the requested page of rows. |
| `Databases.GetProductsDefaults` | src/main/kotlin/Databases.kt:29-30 | A missing or non-numeric `limit`/`skip` behaves as `limit=20`, `skip=0`, giving the first `min(20, n)` rows. |
| `Databases.GetProductsPage` | src/main/kotlin/Databases.kt:29-42 | Numeric parameters select the page `(limit, skip)`. A negative one gives BadRequest. |
| `Databases.GetCategories` | src/main/kotlin/Databases.kt:45-48 | Responds OK with the categories: each row's category is present, each appears once, and nothing else is included. |
| `Databases.GetByCategory` | src/main/kotlin/Databases.kt:50-58 | A missing parameter gives BadRequest. Otherwise it responds OK with exactly the rows of that category, each as often as in the table, in table order. |
| `Databases.SearchProducts` | src/main/kotlin/Databases.kt:60-68 | A missing `q` gives BadRequest. Otherwise it responds OK with exactly the rows whose title matches, each as often as in the table, in table order. |
| `Databases.PostProducts` | src/main/kotlin/Databases.kt:19-25 | Inserts the items one by one in list order under consecutive fresh ids. It responds Created with one id per item, the i-th for the i-th item. If the sequence runs out part-way, the earlier inserts stay and the response is a server error. |
| `Databases.InsertedRowsReadBack` | src/main/kotlin/Databases.kt:21-23 | The i-th inserted row reads back as the i-th item under id `start + i`, with only its first image. |
| `Databases.DeleteProduct` | src/main/kotlin/Databases.kt:72-79 | An id that does not parse as an `Int` gives BadRequest and deletes nothing. Any parsed `Int` is deleted and answered OK, whether or not a row had it. |
| `Databases.HandleProducts` | src/main/kotlin/Databases.kt:17-80 | Without an accepted token, the response is Unauthorized (code 401) with the realm challenge and the store is untouched. Otherwise the request goes to its handler. Only POST and DELETE change the store. |
| `Databases.RegisterNeverCreatesUser` | src/main/kotlin/Databases.kt:85-98 | As written, register answers Conflict exactly when the email is taken. For every new email it answers InternalServerError. It never inserts. |
| `Databases.RegisterFailsOnEmptyTable` | src/main/kotlin/Databases.kt:92-94 | On an empty table, every registration is a server error. |
| `Databases.RegisterIntended` | src/main/kotlin/Databases.kt:85-98 | Corrected register. A taken email gives Conflict and no change. A new email is inserted under the next id, the sequence advances by one, and the answer is Created with the user's token. An exhausted sequence gives a server error, with no new row and the sequence unchanged. |
| `Databases.LoginOutcome` | src/main/kotlin/Databases.kt:100-110 | Login answers OK exactly when a stored user has that email and password, and Unauthorized otherwise. On OK, the gate accepts the returned token as the user's email. |
| `Databases.RegisterThenLogin` | src/main/kotlin/Databases.kt:85-110 | Corrected register, then login with the same credentials, gives Created and then OK, with a token accepted as the email. A second registration is a Conflict that keeps the first password. |

## Left out

- Engine startup (`Application.kt`) and `connectToPostgres` are left out. They only read configuration, log and connect to the database.
- Transactions and coroutines (`newSuspendedTransaction`, `transaction`, `SchemaUtils.create`) are left out. Each service call is one atomic step on its table, and requests run one at a time. So the model cannot show a concurrent insert landing between register's two lookups.
- JSON (de)serialisation and Ktor routing are left out. A body that fails to deserialise, and its 400/415 answer, is not modelled. An uncaught exception's 500 answer is modelled with an empty body.
- HMAC-SHA256 and JWT encoding are left out. A signature is the record of the key, the algorithm and the claims it covers.
- Time-based JWT checks (`exp`, `nbf`, `iat`) are left out because they need a clock. Minted tokens carry none of these claims.
- A token without a `sub` claim is not modelled. The subject is always present.
- `discountPercentage` and `rating` are carried as 64-bit patterns. They are only copied, never computed with.
- Column length limits (`varchar(255)`) are not modelled.
- `Text.ToIntOrNull` reads ASCII digits only. Kotlin also accepts other Unicode decimal digits.
- `Text.Lower` lower-cases ASCII letters only. Kotlin `lowercase()` and SQL `lower` follow Unicode and the collation.
- The order of `selectAll()` without `ORDER BY` is taken to be insertion order.
- `MarketItemSchema.GetAllCategories`: returns categories in first-occurrence order. `SELECT DISTINCT` promises no order, so the contract states no order.
- `MarketItemSchema.SearchIsPrefixMatch`: stated only for queries without `%`, `_` or `\`. For other queries, `MarketItemSchema.Search` states the full `LIKE` semantics instead.
- `MarketItemSchema.GetPaged`: requires non-negative `limit` and `skip`, as Kotlin's `drop` and `take` do. The route refuses negative values before calling it.
- `Databases.HandleProducts`: for POST and DELETE it states only the possible statuses. The full effect of each is the contract of `Databases.PostProducts` and `Databases.DeleteProduct`.
- Reading one product or one user by id, and the unauthenticated `/market_items` and `/users` routes, are not part of this model. `configureDatabases`, `MarketItemService` and `UserService` contain neither.

## Findings

| source | as written | input that shows it | evidently intended | confidence | as-written member | corrected member |
|---|---|---|---|---|---|---|
| src/main/kotlin/Databases.kt:92-94 | Register builds `newUser` but never calls `userService.create`. It then reads the email back, finds nothing, and answers 500 "User creation failed". | Empty `Users` table, body `("a", "a@example.com", "p")`: answers InternalServerError and the table stays empty. | Insert the new user, then read it back and answer Created with its token. | high; not executed | `Databases.RegisterNeverCreatesUser` | `Databases.RegisterIntended` |
