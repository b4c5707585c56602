/** The routes `configureDatabases` installs: the product routes behind the
    bearer-token gate and the `/auth` routes. Each handler maps the request's
    parameters and the tables to a status and a body; the two that write
    (POST and DELETE on `/products`) are methods on the catalog store. */
module Databases {
  import opened Common
  import opened Text
  import opened Jwt
  import M = MarketItemSchema
  import U = UserSchema
  import S = Security
  import Seqs

  datatype Status = OK | Created | BadRequest | Unauthorized | Conflict | InternalServerError

  function Code(s: Status): int
  {
    match s
    case OK => 200
    case Created => 201
    case BadRequest => 400
    case Unauthorized => 401
    case Conflict => 409
    case InternalServerError => 500
  }

  datatype Body =
    | Empty
    | Message(text: string)
    | Ids(ids: seq<Int32>)
    | Products(products: seq<M.MarketItem>)    // `RequestMarketItemsContainer`
    | Categories(categories: seq<string>)
    | TokenBody(token: Token)                  // `mapOf("token" to jwt)`
    | Challenge(realm: string)                 // the bearer challenge of a refused token

  datatype Response = Response(status: Status, body: Body)

  // ---------------------------------------------------------------------------
  // GET /products, /products/categories, /products/category/{category},
  // /products/search
  // ---------------------------------------------------------------------------

  const DefaultLimit: Int32 := 20
  const DefaultSkip: Int32 := 0

  /** `raw?.toIntOrNull() ?: default`. */
  function IntParamOr(raw: Option<string>, default: Int32): Int32
  {
    match raw
    case None => default
    case Some(s) => match ToIntOrNull(s) case Some(n) => n case None => default
  }

  /** GET /products: `limit` and `skip` default when missing or not an
      `Int`; a negative one is refused before the store is read. */
  function GetProducts(rows: seq<M.ItemRow>, limitRaw: Option<string>, skipRaw: Option<string>): (r: Response)
    ensures var limit, skip := IntParamOr(limitRaw, DefaultLimit), IntParamOr(skipRaw, DefaultSkip);
      && (r.status == BadRequest <==> limit < 0 || skip < 0)
      && (r.status != BadRequest ==>
            && r.status == OK && r.body.Products?
            && |r.body.products| == Max(0, Min(limit, |rows| - skip))
            && forall i :: 0 <= i < |r.body.products| ==> r.body.products[i] == M.ToDto(rows[skip + i]))
  {
    var limit := IntParamOr(limitRaw, DefaultLimit);
    var skip := IntParamOr(skipRaw, DefaultSkip);
    if limit < 0 || skip < 0 then
      Response(BadRequest, Message("limit and skip must be non-negative"))
    else
      Response(OK, Products(M.GetPaged(rows, limit, skip)))
  }

  /** Without parameters, or with ones that are not numbers, GET /products
      gives the first 20 rows. */
  lemma GetProductsDefaults(rows: seq<M.ItemRow>, limitRaw: Option<string>, skipRaw: Option<string>)
    requires limitRaw.None? || ToIntOrNull(limitRaw.value).None?
    requires skipRaw.None? || ToIntOrNull(skipRaw.value).None?
    ensures GetProducts(rows, limitRaw, skipRaw) == Response(OK, Products(M.GetPaged(rows, 20, 0)))
    ensures |M.GetPaged(rows, 20, 0)| == Min(20, |rows|)
  {
  }

  /** `?limit=L&skip=S`, written as Kotlin prints the numbers, gives the
      rows from S on, at most L of them, and is refused when either is
      negative. */
  lemma GetProductsPage(rows: seq<M.ItemRow>, limit: Int32, skip: Int32)
    ensures var r := GetProducts(rows, Some(IntToString(limit)), Some(IntToString(skip)));
      && (limit < 0 || skip < 0 ==> r.status == BadRequest)
      && (limit >= 0 && skip >= 0 ==> r == Response(OK, Products(M.GetPaged(rows, limit, skip))))
  {
    ToIntOrNullRoundTrip(limit);
    ToIntOrNullRoundTrip(skip);
  }

  /** GET /products/categories. */
  function GetCategories(rows: seq<M.ItemRow>): (r: Response)
    ensures r.status == OK && r.body.Categories?
    ensures Seqs.NoDuplicates(r.body.categories)
    ensures forall i :: 0 <= i < |rows| ==> rows[i].category in r.body.categories
    ensures forall k :: 0 <= k < |r.body.categories| ==>
      exists i :: 0 <= i < |rows| && rows[i].category == r.body.categories[k]
  {
    Response(OK, Categories(M.GetAllCategories(rows)))
  }

  /** GET /products/category/{category}. */
  function GetByCategory(rows: seq<M.ItemRow>, category: Option<string>): (r: Response)
    ensures category.None? ==> r.status == BadRequest
    ensures category.Some? ==>
      && r.status == OK && r.body.Products?
      && (forall k :: 0 <= k < |r.body.products| ==> r.body.products[k].category == category.value)
      && (forall i :: 0 <= i < |rows| && rows[i].category == category.value ==> M.ToDto(rows[i]) in r.body.products)
      && Seqs.IsSubsequence(r.body.products, M.MapDto(rows))
      && (forall i :: 0 <= i < |rows| && rows[i].category == category.value ==>
            multiset(r.body.products)[M.ToDto(rows[i])] == multiset(M.MapDto(rows))[M.ToDto(rows[i])])
  {
    match category
    case None => Response(BadRequest, Message("Wrong query params"))
    case Some(c) => Response(OK, Products(M.GetByCategory(rows, c)))
  }

  /** GET /products/search: `q` is required. */
  function SearchProducts(rows: seq<M.ItemRow>, q: Option<string>): (r: Response)
    ensures q.None? ==> r.status == BadRequest
    ensures q.Some? ==>
      && r.status == OK && r.body.Products?
      && (forall k :: 0 <= k < |r.body.products| ==> Like(Lower(r.body.products[k].title), Lower(q.value) + "%"))
      && (forall i :: 0 <= i < |rows| && M.TitleMatches(rows[i], q.value) ==> M.ToDto(rows[i]) in r.body.products)
      && Seqs.IsSubsequence(r.body.products, M.MapDto(rows))
      && (forall i :: 0 <= i < |rows| && M.TitleMatches(rows[i], q.value) ==>
            multiset(r.body.products)[M.ToDto(rows[i])] == multiset(M.MapDto(rows))[M.ToDto(rows[i])])
  {
    match q
    case None => Response(BadRequest, Message("Wrong query params"))
    case Some(text) => Response(OK, Products(M.Search(rows, text)))
  }

  // ---------------------------------------------------------------------------
  // POST /products, DELETE /products/{id}
  // ---------------------------------------------------------------------------

  /** The rows `create` writes for `items`, one after the other, under
      consecutive ids from `start`. */
  function InsertedRows(start: int, items: seq<M.MarketItem>): (r: seq<M.ItemRow>)
    requires MinInt32 <= start && start + |items| <= MaxInt32 + 1
    ensures |r| == |items|
  {
    seq(|items|, i requires 0 <= i < |items| => M.RowOf(start + i, items[i]))
  }

  /** The ids `start`, `start + 1`, ..., `n` of them. */
  function Consecutive(start: int, n: nat): (r: seq<Int32>)
    requires MinInt32 <= start && start + n <= MaxInt32 + 1
    ensures |r| == n
  {
    seq(n, i requires 0 <= i < n => start + i)
  }

  /** POST /products: `items.map { create(it) }`. Each item is inserted in
      list order and the response lists the new ids, the i-th for the i-th
      item. When the id sequence runs out part-way, the insert raises: the
      items before stay inserted and the response is a server error. */
  method PostProducts(store: M.MarketItemService, items: seq<M.MarketItem>) returns (resp: Response)
    requires store.Valid()
    modifies store
    ensures store.Valid()
    ensures var start := old(store.nextId);
      var k := Min(|items|, MaxInt32 + 1 - start);
      && store.rows == old(store.rows) + InsertedRows(start, items[..k])
      && store.nextId == start + k
      && (k == |items| ==> resp == Response(Created, Ids(Consecutive(start, k))))
      && (k < |items| ==> resp == Response(InternalServerError, Empty))
  {
    var start := store.nextId;
    ghost var before := store.rows;
    var ids: seq<Int32> := [];
    var i := 0;
    while i < |items|
      invariant 0 <= i <= |items|
      invariant store.Valid()
      invariant store.nextId == start + i
      invariant store.rows == before + InsertedRows(start, items[..i])
      invariant ids == Consecutive(start, i)
    {
      var id := store.Create(items[i]);
      if id.None? {
        return Response(InternalServerError, Empty);
      }
      assert items[..i + 1] == items[..i] + [items[i]];
      assert InsertedRows(start, items[..i + 1]) == InsertedRows(start, items[..i]) + [M.RowOf(start + i, items[i])];
      ids := ids + [id.value];
      i := i + 1;
    }
    assert items[..i] == items;
    resp := Response(Created, Ids(ids));
  }

  /** The rows POST /products writes read back as the items under their
      new ids, each with its first image only. */
  lemma InsertedRowsReadBack(start: int, items: seq<M.MarketItem>)
    requires MinInt32 <= start && start + |items| <= MaxInt32 + 1
    ensures forall i :: 0 <= i < |items| ==>
      M.ToDto(InsertedRows(start, items)[i]) ==
        items[i].(id := start + i, images := [M.FirstOrEmpty(items[i].images)])
  {
  }

  /** DELETE /products/{id}: an id that is not an `Int` is refused and
      nothing is deleted; any `Int`, negative ones included, is deleted and
      answered OK whether a row had it or not. */
  method DeleteProduct(store: M.MarketItemService, idRaw: Option<string>) returns (resp: Response)
    requires store.Valid()
    modifies store`rows
    ensures store.Valid()
    ensures idRaw.None? || ToIntOrNull(idRaw.value).None? ==>
      resp == Response(BadRequest, Message("Invalid ID")) && store.rows == old(store.rows)
    ensures idRaw.Some? && ToIntOrNull(idRaw.value).Some? ==>
      resp == Response(OK, Empty) && M.DeletedId(old(store.rows), store.rows, ToIntOrNull(idRaw.value).value)
  {
    var id := if idRaw.Some? then ToIntOrNull(idRaw.value) else None;
    if id.None? {
      return Response(BadRequest, Message("Invalid ID"));
    }
    store.Delete(id.value);
    resp := Response(OK, Empty);
  }

  // ---------------------------------------------------------------------------
  // The gate in front of the product routes
  // ---------------------------------------------------------------------------

  datatype ProductRequest =
    | PostItems(items: seq<M.MarketItem>)
    | ListProducts(limit: Option<string>, skip: Option<string>)
    | ListCategories
    | ListByCategory(category: Option<string>)
    | SearchItems(q: Option<string>)
    | DeleteItem(id: Option<string>)

  /** The routes inside `authenticate { }`: without a principal the request
      is answered with the challenge and never reaches the store; with one
      it goes to its handler. Only POST and DELETE write. */
  method HandleProducts(cfg: S.JwtConfig, bearer: Option<Token>, req: ProductRequest, store: M.MarketItemService)
    returns (resp: Response)
    requires store.Valid()
    modifies store
    ensures store.Valid()
    ensures S.Authenticate(cfg, bearer).None? ==>
      && resp == Response(Unauthorized, Challenge(cfg.realm)) && Code(resp.status) == 401
      && store.rows == old(store.rows) && store.nextId == old(store.nextId)
    ensures !req.PostItems? && !req.DeleteItem? ==> store.rows == old(store.rows) && store.nextId == old(store.nextId)
    ensures S.Authenticate(cfg, bearer).Some? ==>
      match req
      case ListProducts(limit, skip) => resp == GetProducts(old(store.rows), limit, skip)
      case ListCategories => resp == GetCategories(old(store.rows))
      case ListByCategory(category) => resp == GetByCategory(old(store.rows), category)
      case SearchItems(q) => resp == SearchProducts(old(store.rows), q)
      case PostItems(items) => resp.status == Created || resp.status == InternalServerError
      case DeleteItem(id) => resp.status == OK || resp.status == BadRequest
  {
    if S.Authenticate(cfg, bearer).None? {
      return Response(Unauthorized, Challenge(cfg.realm));
    }
    match req
    case PostItems(items) =>
      resp := PostProducts(store, items);
    case ListProducts(limit, skip) =>
      resp := GetProducts(store.rows, limit, skip);
    case ListCategories =>
      resp := GetCategories(store.rows);
    case ListByCategory(category) =>
      resp := GetByCategory(store.rows, category);
    case SearchItems(q) =>
      resp := SearchProducts(store.rows, q);
    case DeleteItem(id) =>
      resp := DeleteProduct(store, id);
  }

  // ---------------------------------------------------------------------------
  // POST /auth/register, POST /auth/login
  // ---------------------------------------------------------------------------

  /** POST /auth/register as written: a taken email is a conflict; for a
      new one the handler builds the user but never inserts it, so reading
      it back finds nothing and the answer is a server error. */
  function Register(users: seq<U.UserRow>, body: U.ExposedUser): Response
  {
    if U.ReadByEmail(users, body.email).Some? then
      Response(Conflict, Message("User already exists"))
    else
      var newUser := U.ExposedUser(body.name, body.email, body.password);
      match U.ReadByEmail(users, newUser.email)
      case None => Response(InternalServerError, Message("User creation failed"))
      case Some(created) => Response(Created, TokenBody(U.CreateJWT(created)))
  }

  /** Register never creates a user: it answers Conflict exactly when the
      email is taken, and a server error for every new email. */
  lemma RegisterNeverCreatesUser(users: seq<U.UserRow>, body: U.ExposedUser)
    requires U.EmailsUnique(users)
    ensures Register(users, body).status == Conflict <==> U.EmailTaken(users, body.email)
    ensures !U.EmailTaken(users, body.email) ==>
      Register(users, body) == Response(InternalServerError, Message("User creation failed"))
  {
    U.ReadByEmailUnique(users, body.email);
  }

  /** An empty table and any user show it: registration fails. */
  lemma RegisterFailsOnEmptyTable(body: U.ExposedUser)
    ensures Register([], body).status == InternalServerError
  {
  }

  /** POST /auth/register as evidently intended: the new user is inserted
      before it is read back, and the answer carries its token. An insert
      that raises is a server error. */
  method RegisterIntended(users: U.UserService, body: U.ExposedUser) returns (resp: Response)
    requires users.Valid()
    modifies users
    ensures users.Valid()
    ensures U.EmailTaken(old(users.rows), body.email) ==>
      resp == Response(Conflict, Message("User already exists"))
      && users.rows == old(users.rows) && users.nextId == old(users.nextId)
    ensures !U.EmailTaken(old(users.rows), body.email) && old(users.nextId) <= MaxInt32 ==>
      && resp == Response(Created, TokenBody(U.CreateJWT(body)))
      && users.rows == old(users.rows) + [U.UserRow(old(users.nextId), body.name, body.email, body.password)]
      && users.nextId == old(users.nextId) + 1
    ensures !U.EmailTaken(old(users.rows), body.email) && old(users.nextId) > MaxInt32 ==>
      resp.status == InternalServerError && users.rows == old(users.rows) && users.nextId == old(users.nextId)
  {
    U.ReadByEmailUnique(users.rows, body.email);
    if U.ReadByEmail(users.rows, body.email).Some? {
      return Response(Conflict, Message("User already exists"));
    }
    var newUser := U.ExposedUser(body.name, body.email, body.password);
    var created := users.Create(newUser);
    if created.Failure? {
      return Response(InternalServerError, Empty);
    }
    U.ReadByEmailUnique(users.rows, newUser.email);
    assert users.rows[|users.rows| - 1].email == newUser.email;
    match U.ReadByEmail(users.rows, newUser.email)
    case None =>
      resp := Response(InternalServerError, Message("User creation failed"));
    case Some(stored) =>
      resp := Response(Created, TokenBody(U.CreateJWT(stored)));
  }

  /** POST /auth/login: unknown email or wrong password is refused;
      otherwise the stored user's token is returned. */
  function Login(users: seq<U.UserRow>, body: U.ExposedUser): Response
  {
    var existing := U.ReadByEmail(users, body.email);
    if existing.None? || body.password != existing.value.password then
      Response(Unauthorized, Message("Invalid credentials"))
    else
      Response(OK, TokenBody(U.CreateJWT(existing.value)))
  }

  /** Login succeeds exactly when a stored user has that email and that
      password; the token it returns is accepted by a gate configured with
      the issuer's audience and domain, as the user's email. */
  lemma LoginOutcome(users: seq<U.UserRow>, body: U.ExposedUser, cfg: S.JwtConfig)
    requires U.EmailsUnique(users)
    requires cfg.audience == U.JwtAudience && cfg.domain == U.JwtDomain
    ensures Login(users, body).status == OK || Login(users, body).status == Unauthorized
    ensures Login(users, body).status == OK <==>
      exists i :: 0 <= i < |users| && users[i].email == body.email && users[i].password == body.password
    ensures Login(users, body).status == OK ==>
      Login(users, body).body.TokenBody? &&
      S.Authenticate(cfg, Some(Login(users, body).body.token)) == Some(S.UserIdPrincipal(body.email))
  {
    U.ReadByEmailUnique(users, body.email);
    var r := Login(users, body);
    if r.status == OK {
      var stored := U.ReadByEmail(users, body.email).value;
      S.IssueVerifyRoundTrip(cfg, stored);
    }
  }

  /** Registering a new email with the intended handler and then logging in
      with the same credentials yields a token the gate accepts as that
      email; registering it a second time is a conflict that keeps the
      first password. */
  method RegisterThenLogin(users: U.UserService, body: U.ExposedUser, cfg: S.JwtConfig)
    returns (registered: Response, loggedIn: Response, again: Response)
    requires users.Valid()
    requires !U.EmailTaken(users.rows, body.email) && users.nextId <= MaxInt32
    requires cfg.audience == U.JwtAudience && cfg.domain == U.JwtDomain
    modifies users
    ensures registered.status == Created && loggedIn.status == OK && again.status == Conflict
    ensures loggedIn.body.TokenBody? &&
      S.Authenticate(cfg, Some(loggedIn.body.token)) == Some(S.UserIdPrincipal(body.email))
    ensures U.ReadByEmail(users.rows, body.email) == Some(body)
  {
    registered := RegisterIntended(users, body);
    ghost var n := |users.rows| - 1;
    assert users.rows[n].email == body.email && users.rows[n].password == body.password;
    loggedIn := Login(users.rows, body);
    LoginOutcome(users.rows, body, cfg);
    again := RegisterIntended(users, body.(password := body.password + "x"));
    U.ReadByEmailUnique(users.rows, body.email);
    assert U.UserOf(users.rows[n]) == body;
  }
}
