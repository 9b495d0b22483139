/**
 * The category and transaction endpoints of controller.js over the one mutable store.
 * Each endpoint checks authorisation where the source does, validates its request, and then
 * changes the store or answers with the error status and message the source sends.
 */
module Controller {
  import opened Store
  import Session
  import opened CategoryStore
  import opened TransactionStore
  import opened Filters

  const MISSING_ATTRIBUTES := "Request body does not contain the necessary attributes"
  const EMPTY_PARAMETERS := "Parameters cannot be empty strings"
  const CATEGORY_EXISTS := "The category already exists"
  const NEW_KIND_EXISTS := "The new category you specified in the request is already present in the db."
  const NO_SUCH_CATEGORY := "The category to update does not exists"
  const NO_TYPES := "Request body don't contain anything"
  const EMPTY_TYPES := "Request body types cannot be empty"
  const ONLY_ONE := "You cannot call this method if there is only one category in the db"
  const NO_FALLBACK := "No category would be left to receive the transactions"
  const UNKNOWN_ROUTE_USER := "The username passed as a route param does not exists"
  const UNDEFINED_BODY := "One of the body parameters is undefined"
  const EMPTY_BODY := "One of the body parameters is an empty string"
  const UNKNOWN_CATEGORY := "The category passed in the request body does not exists"
  const UNKNOWN_BODY_USER := "The username passed in the request body does not exists"
  const DIFFERENT_USERS := "The user passed in the request body is not the same as the one passed as a parameter"
  const NOT_ROUTE_USER := "Not the same user as the one specified in the route"
  const NOT_PARSABLE := "Amount not parsable"
  const UNKNOWN_USER := "The username don't exists"
  const NO_ID := "The body is empty"
  const ID_NOT_FOUND := "Id is not specified"
  const NOT_AUTHENTICATED := "User not authenticated"
  const NOT_OWNER := "The transaction don't belong to you"
  const DELETED := "Transaction deleted"
  const NO_IDS := "Please specify a list of ids in form of an array."
  const EMPTY_ID := "Ids cannot be empty strings"
  const ABSENT_ID := "Ids needs to be present in the db"
  const DELETED_MANY := "Transactions deleted"

  /**
   * createCategory: admins only; both attributes present and non-empty, and the kind new.
   * The category is appended and echoed back.
   */
  method CreateCategory(db: Db, jwt: Session.Jwt, cookies: Session.Cookies,
                        kind: Option<string>, color: Option<string>) returns (r: Reply<Category>)
    modifies db
    ensures db.transactions == old(db.transactions) && db.accounts == old(db.accounts) &&
            db.groups == old(db.groups)
    ensures var d := Session.VerifyAuth(jwt, cookies, Session.Admin);
      (!d.flag ==> r == Fail(401, d.cause)) &&
      (d.flag && (kind.None? || color.None?) ==> r == Fail(400, MISSING_ATTRIBUTES)) &&
      (d.flag && kind.Some? && color.Some? && (kind.value == "" || color.value == "") ==>
        r == Fail(400, EMPTY_PARAMETERS)) &&
      (r.Done? <==> d.flag && Truthy(kind) && Truthy(color) && !HasKind(old(db.categories), kind.value))
    ensures r.Done? ==> r.data == Category(kind.value, color.value) &&
                        db.categories == old(db.categories) + [r.data]
    ensures r.Fail? ==> db.categories == old(db.categories)
    // the invariants of the category collection are kept
    ensures UniqueKinds(old(db.categories)) ==> UniqueKinds(db.categories)
    ensures Integrity(old(db.categories), db.transactions) ==> Integrity(db.categories, db.transactions)
  {
    var d := Session.VerifyAuth(jwt, cookies, Session.Admin);
    if !d.flag {
      return Fail(401, d.cause);
    }
    if kind.None? || color.None? {
      return Fail(400, MISSING_ATTRIBUTES);
    }
    if kind.value == "" || color.value == "" {
      return Fail(400, EMPTY_PARAMETERS);
    }
    if HasKind(db.categories, kind.value) {
      return Fail(400, CATEGORY_EXISTS);
    }
    var c := Category(kind.value, color.value);
    ghost var before := db.categories;
    db.categories := db.categories + [c];
    assert forall k :: HasKind(before, k) ==> HasKind(db.categories, k) by {
      forall k | HasKind(before, k) ensures HasKind(db.categories, k) {
        var i :| 0 <= i < |before| && before[i].kind == k;
        assert db.categories[i] == before[i];
      }
    }
    return Done(c);
  }

  /**
   * updateCategory: admins only; the new kind and colour present and non-empty, the new kind
   * unused and the old one existing. The category is renamed in place and its transactions
   * follow it; the reply is how many transactions were moved.
   */
  method UpdateCategory(db: Db, jwt: Session.Jwt, cookies: Session.Cookies, current: string,
                        kind: Option<string>, color: Option<string>) returns (r: Reply<nat>)
    modifies db
    ensures db.accounts == old(db.accounts) && db.groups == old(db.groups)
    ensures var d := Session.VerifyAuth(jwt, cookies, Session.Admin);
      (!d.flag ==> r == Fail(401, d.cause)) &&
      (d.flag && (kind.None? || color.None?) ==> r == Fail(400, MISSING_ATTRIBUTES)) &&
      (d.flag && kind.Some? && color.Some? && (kind.value == "" || color.value == "") ==>
        r == Fail(400, EMPTY_PARAMETERS)) &&
      (d.flag && Truthy(kind) && Truthy(color) && HasKind(old(db.categories), kind.value) ==>
        r == Fail(400, NEW_KIND_EXISTS)) &&
      (r.Done? <==> d.flag && Truthy(kind) && Truthy(color) &&
                    !HasKind(old(db.categories), kind.value) && HasKind(old(db.categories), current))
    ensures r.Done? ==>
      db.categories == Rename(old(db.categories), current, kind.value, color.value) &&
      db.transactions == Retype(old(db.transactions), current, kind.value) &&
      r.data == CountKind(old(db.transactions), current)
    ensures r.Fail? ==> db.categories == old(db.categories) && db.transactions == old(db.transactions)
    ensures UniqueKinds(old(db.categories)) ==> UniqueKinds(db.categories)
    ensures Integrity(old(db.categories), old(db.transactions)) ==> Integrity(db.categories, db.transactions)
  {
    var d := Session.VerifyAuth(jwt, cookies, Session.Admin);
    if !d.flag {
      return Fail(401, d.cause);
    }
    if kind.None? || color.None? {
      return Fail(400, MISSING_ATTRIBUTES);
    }
    if kind.value == "" || color.value == "" {
      return Fail(400, EMPTY_PARAMETERS);
    }
    if HasKind(db.categories, kind.value) {
      return Fail(400, NEW_KIND_EXISTS);
    }
    if !HasKind(db.categories, current) {
      return Fail(400, NO_SUCH_CATEGORY);
    }
    if Integrity(db.categories, db.transactions) {
      RenameKeepsIntegrity(db.categories, db.transactions, current, kind.value, color.value);
    }
    var matched := CountKind(db.transactions, current);
    db.categories := Rename(db.categories, current, kind.value, color.value);
    db.transactions := Retype(db.transactions, current, kind.value);
    return Done(matched);
  }

  /**
   * The checks deleteCategory makes before deleting anything: admins only, a non-empty
   * list, more than one category in the store. Unlike the source, a plan without a fallback
   * is refused here too. `None` when all pass.
   */
  function DeletionRefusal(categories: seq<Category>, jwt: Session.Jwt, cookies: Session.Cookies,
                           types: Option<seq<string>>): (r: Option<Reply<nat>>)
    ensures r.Some? ==> r.value.Fail?
    ensures r.None? <==>
      Session.VerifyAuth(jwt, cookies, Session.Admin).flag && types.Some? && |types.value| > 0 &&
      |categories| >= 2 && PlanDeletion(categories, types.value).fallback.Some?
    ensures !Session.VerifyAuth(jwt, cookies, Session.Admin).flag ==>
      r == Some(Fail(401, Session.VerifyAuth(jwt, cookies, Session.Admin).cause))
    ensures r.Some? && r.value.status == 401 ==> !Session.VerifyAuth(jwt, cookies, Session.Admin).flag
    // a store with a single category is never emptied
    ensures |categories| == 1 ==> r.Some?
  {
    var d := Session.VerifyAuth(jwt, cookies, Session.Admin);
    if !d.flag then Some(Fail(401, d.cause))
    else if types.None? then Some(Fail(400, NO_TYPES))
    else if |types.value| == 0 then Some(Fail(400, EMPTY_TYPES))
    else if |categories| == 1 then Some(Fail(400, ONLY_ONE))
    // the oldest category is null, and reading its kind throws
    else if |categories| == 0 then Some(Fail(400, NULL_FALLBACK))
    else if PlanDeletion(categories, types.value).fallback.None? then Some(Fail(400, NO_FALLBACK))
    else None
  }

  /**
   * deleteCategory: after `DeletionRefusal` passes, the listed kinds are deleted one by one,
   * their transactions moving to the fallback, until the list ends or a kind is empty or
   * missing; what was done before such an error stays done. The reply is the number of moved
   * transactions.
   */
  method DeleteCategory(db: Db, jwt: Session.Jwt, cookies: Session.Cookies,
                        types: Option<seq<string>>) returns (r: Reply<nat>)
    modifies db
    ensures db.accounts == old(db.accounts) && db.groups == old(db.groups)
    ensures var refusal := DeletionRefusal(old(db.categories), jwt, cookies, types);
      (refusal.Some? ==>
        r == refusal.value && db.categories == old(db.categories) && db.transactions == old(db.transactions)) &&
      (refusal.None? ==>
        var p := PlanDeletion(old(db.categories), types.value);
        var s := DeleteSweep(old(db.categories), old(db.transactions), p.kinds, p.fallback, 0);
        db.categories == s.categories && db.transactions == s.transactions &&
        r == (if s.error.None? then Done(s.count) else Fail(400, s.error.value)))
    ensures Integrity(old(db.categories), old(db.transactions)) ==> Integrity(db.categories, db.transactions)
  {
    var refusal := DeletionRefusal(db.categories, jwt, cookies, types);
    if refusal.Some? {
      return refusal.value;
    }
    var p := PlanDeletion(db.categories, types.value);
    var f := p.fallback.value;
    assert f !in p.kinds && HasKind(db.categories, f);
    if Integrity(db.categories, db.transactions) {
      SweepKeepsIntegrity(db.categories, db.transactions, p.kinds, f, 0);
    }
    r := RunSweep(db, p.kinds, f);
  }

  /** The deletion loop itself, with fallback `f`. */
  method RunSweep(db: Db, kinds: seq<string>, f: string) returns (r: Reply<nat>)
    modifies db
    ensures db.accounts == old(db.accounts) && db.groups == old(db.groups)
    ensures var s := DeleteSweep(old(db.categories), old(db.transactions), kinds, Some(f), 0);
      db.categories == s.categories && db.transactions == s.transactions &&
      r == (if s.error.None? then Done(s.count) else Fail(400, s.error.value))
  {
    ghost var goal := DeleteSweep(db.categories, db.transactions, kinds, Some(f), 0);
    var count: nat := 0;
    var rest := kinds;
    while rest != []
      invariant DeleteSweep(db.categories, db.transactions, rest, Some(f), count) == goal
      invariant db.accounts == old(db.accounts) && db.groups == old(db.groups)
      decreases |rest|
    {
      var t := rest[0];
      if t == "" {
        return Fail(400, EMPTY_CATEGORY);
      }
      if !HasKind(db.categories, t) {
        return Fail(400, NO_CATEGORY);
      }
      var matched := CountKind(db.transactions, t);
      var cats, txs := RemoveKind(db.categories, t), Retype(db.transactions, t, f);
      assert DeleteSweep(cats, txs, rest[1..], Some(f), count + matched) == goal;
      db.categories, db.transactions := cats, txs;
      count := count + matched;
      rest := rest[1..];
    }
    return Done(count);
  }

  /**
   * The checks of createTransaction, in the source's order, with the caller's authorisation
   * (as an admin, or else as the user named in the route) and the account holding the
   * caller's refresh token; `None` when all pass. The user check is handed the request in the
   * response's place, so it refuses where it would renew the access token.
   */
  function TransactionRefusal(accounts: seq<Account>, categories: seq<Category>, jwt: Session.Jwt,
                              cookies: Session.Cookies, parseFloat: string -> Option<real>,
                              routeUser: string, username: Option<string>, amount: Option<string>,
                              kind: Option<string>): (r: Option<Reply<Transaction>>)
    ensures r.Some? ==> r.value.Fail?
    ensures r.None? <==>
      HasUsername(accounts, routeUser) && Truthy(username) && Truthy(amount) && Truthy(kind) &&
      HasKind(categories, kind.value) && username.value == routeUser &&
      (Session.VerifyAuth(jwt, cookies, Session.Admin).flag ||
       Session.VerifyAuthOnRequest(jwt, cookies, Session.User(routeUser)).flag) &&
      Truthy(cookies.refreshToken) &&
      AccountByToken(accounts, cookies.refreshToken.value).Some? &&
      accounts[AccountByToken(accounts, cookies.refreshToken.value).value].username == routeUser &&
      parseFloat(amount.value).Some?
    // unauthenticated callers, and callers who are not the route's user, are refused with 401
    ensures r.Some? && r.value.status == 401 ==>
      (!Session.VerifyAuth(jwt, cookies, Session.Admin).flag ||
      !Truthy(cookies.refreshToken) ||
      AccountByToken(accounts, cookies.refreshToken.value).None? ||
      accounts[AccountByToken(accounts, cookies.refreshToken.value).value].username != routeUser)
    // a non-admin whose access token has expired is refused: the renewal throws
    ensures HasUsername(accounts, routeUser) && Truthy(username) && Truthy(amount) && Truthy(kind) &&
            HasKind(categories, kind.value) && username.value == routeUser &&
            !Session.VerifyAuth(jwt, cookies, Session.Admin).flag &&
            Session.VerifyAuth(jwt, cookies, Session.User(routeUser)).rotated.Some? ==>
      r == Some(Fail(401, Session.TYPE_ERROR))
  {
    if !HasUsername(accounts, routeUser) then Some(Fail(400, UNKNOWN_ROUTE_USER))
    else if username.None? || amount.None? || kind.None? then Some(Fail(400, UNDEFINED_BODY))
    else if username.value == "" || amount.value == "" || kind.value == "" then Some(Fail(400, EMPTY_BODY))
    else if !HasKind(categories, kind.value) then Some(Fail(400, UNKNOWN_CATEGORY))
    else if !HasUsername(accounts, username.value) then Some(Fail(400, UNKNOWN_BODY_USER))
    else if username.value != routeUser then Some(Fail(400, DIFFERENT_USERS))
    else
      var admin := Session.VerifyAuth(jwt, cookies, Session.Admin);
      var user := Session.VerifyAuthOnRequest(jwt, cookies, Session.User(routeUser));
      if !admin.flag && !user.flag then Some(Fail(401, user.cause))
      else
        // a grant implies a truthy refresh-token cookie
        var holder := AccountByToken(accounts, cookies.refreshToken.value);
        if holder.None? || accounts[holder.value].username != routeUser then Some(Fail(401, NOT_ROUTE_USER))
        else if parseFloat(amount.value).None? then Some(Fail(400, NOT_PARSABLE))
        else None
  }

  /**
   * createTransaction: after `TransactionRefusal` passes, a transaction of the route's user,
   * with the parsed amount, the given category and the current time, is appended under a
   * fresh id and echoed back.
   */
  method CreateTransaction(db: Db, jwt: Session.Jwt, cookies: Session.Cookies,
                           parseFloat: string -> Option<real>, now: string, routeUser: string,
                           username: Option<string>, amount: Option<string>, kind: Option<string>)
    returns (r: Reply<Transaction>)
    modifies db
    ensures db.categories == old(db.categories) && db.accounts == old(db.accounts) &&
            db.groups == old(db.groups)
    ensures var refusal := TransactionRefusal(old(db.accounts), old(db.categories), jwt, cookies,
                                              parseFloat, routeUser, username, amount, kind);
      (refusal.Some? ==> r == refusal.value && db.transactions == old(db.transactions)) &&
      (refusal.None? ==>
        r.Done? &&
        r.data == Transaction(r.data.id, routeUser, parseFloat(amount.value).value, kind.value, now) &&
        db.transactions == old(db.transactions) + [r.data] &&
        r.data.id != "" && TransactionById(old(db.transactions), r.data.id).None?)
    ensures Integrity(db.categories, old(db.transactions)) ==> Integrity(db.categories, db.transactions)
    ensures UniqueIds(old(db.transactions)) ==> UniqueIds(db.transactions)
  {
    var refusal := TransactionRefusal(db.accounts, db.categories, jwt, cookies, parseFloat,
                                      routeUser, username, amount, kind);
    if refusal.Some? {
      return refusal.value;
    }
    var ids := Ids(db.transactions, (t: Transaction) => t.id);
    var id := FreshId(ids);
    var t := Transaction(id, routeUser, parseFloat(amount.value).value, kind.value, now);
    assert NoId(db.transactions, id) by {
      forall u | u in db.transactions ensures u.id != id {
        var i :| 0 <= i < |db.transactions| && db.transactions[i] == u;
        assert ids[i] == u.id;
      }
    }
    if UniqueIds(db.transactions) {
      AppendFreshKeepsUnique(db.transactions, t);
    }
    db.transactions := db.transactions + [t];
    return Done(t);
  }

  /**
   * The checks of deleteTransaction: the route's user exists and the id names a
   * transaction; an admin passes, anyone else must be the route's user and own the
   * transaction. `None` when all pass. As in createTransaction, the user check is handed
   * the request in the response's place.
   */
  function RemovalRefusal(accounts: seq<Account>, txs: seq<Transaction>, jwt: Session.Jwt,
                          cookies: Session.Cookies, username: string, id: Option<Id>)
    : (r: Option<Reply<string>>)
    ensures r.Some? ==> r.value.Fail?
    ensures !HasUsername(accounts, username) ==> r == Some(Fail(400, UNKNOWN_USER))
    ensures HasUsername(accounts, username) && !Truthy(id) ==> r == Some(Fail(400, NO_ID))
    ensures r.None? <==>
      HasUsername(accounts, username) && Truthy(id) && TransactionById(txs, id.value).Some? &&
      (Session.VerifyAuth(jwt, cookies, Session.Admin).flag ||
       (Session.VerifyAuthOnRequest(jwt, cookies, Session.User(username)).flag &&
        txs[TransactionById(txs, id.value).value].username == username))
    // a non-admin whose access token has expired is refused as unauthenticated: the renewal throws
    ensures HasUsername(accounts, username) && Truthy(id) && TransactionById(txs, id.value).Some? &&
            !Session.VerifyAuth(jwt, cookies, Session.Admin).flag &&
            Session.VerifyAuth(jwt, cookies, Session.User(username)).rotated.Some? ==>
      r == Some(Fail(401, NOT_AUTHENTICATED))
  {
    if !HasUsername(accounts, username) then Some(Fail(400, UNKNOWN_USER))
    else if !Truthy(id) then Some(Fail(400, NO_ID))
    else
      var found := TransactionById(txs, id.value);
      if found.None? then Some(Fail(400, ID_NOT_FOUND))
      else if Session.VerifyAuth(jwt, cookies, Session.Admin).flag then None
      else if !Session.VerifyAuthOnRequest(jwt, cookies, Session.User(username)).flag then Some(Fail(401, NOT_AUTHENTICATED))
      else if txs[found.value].username != username then Some(Fail(400, NOT_OWNER))
      else None
  }

  /** deleteTransaction: after `RemovalRefusal` passes, the transaction with that id goes. */
  method DeleteTransaction(db: Db, jwt: Session.Jwt, cookies: Session.Cookies, username: string,
                           id: Option<Id>) returns (r: Reply<string>)
    modifies db
    ensures db.categories == old(db.categories) && db.accounts == old(db.accounts) &&
            db.groups == old(db.groups)
    ensures var refusal := RemovalRefusal(old(db.accounts), old(db.transactions), jwt, cookies, username, id);
      (refusal.Some? ==> r == refusal.value && db.transactions == old(db.transactions)) &&
      (refusal.None? ==> r == Done(DELETED) && db.transactions == RemoveId(old(db.transactions), id.value))
    ensures Integrity(db.categories, old(db.transactions)) ==> Integrity(db.categories, db.transactions)
  {
    var refusal := RemovalRefusal(db.accounts, db.transactions, jwt, cookies, username, id);
    if refusal.Some? {
      return refusal.value;
    }
    ghost var c, txs0 := db.categories, db.transactions;
    db.transactions := RemoveId(db.transactions, id.value);
    assert Integrity(c, txs0) ==> Integrity(c, db.transactions) by {
      if Integrity(c, txs0) {
        forall k | 0 <= k < |db.transactions| ensures HasKind(c, db.transactions[k].category) {
          var t := db.transactions[k];
          assert t in txs0;
          var j :| 0 <= j < |txs0| && txs0[j] == t;
        }
      }
    }
    return Done(DELETED);
  }

  /**
   * The validation pass of deleteTransactions: the error for the first id that is empty or
   * names no transaction, or `None` when every id is valid.
   */
  method CheckIds(txs: seq<Transaction>, ids: seq<Id>) returns (err: Option<string>)
    ensures err.None? <==> forall i :: 0 <= i < |ids| ==> ids[i] != "" && TransactionById(txs, ids[i]).Some?
    ensures err.Some? ==>
      exists k :: 0 <= k < |ids| &&
        (forall j :: 0 <= j < k ==> ids[j] != "" && TransactionById(txs, ids[j]).Some?) &&
        (ids[k] == "" || TransactionById(txs, ids[k]).None?) &&
        err.value == (if ids[k] == "" then EMPTY_ID else ABSENT_ID)
  {
    var i := 0;
    while i < |ids|
      invariant 0 <= i <= |ids|
      invariant forall j :: 0 <= j < i ==> ids[j] != "" && TransactionById(txs, ids[j]).Some?
    {
      if ids[i] == "" {
        return Some(EMPTY_ID);
      }
      if TransactionById(txs, ids[i]).None? {
        return Some(ABSENT_ID);
      }
      i := i + 1;
    }
    return None;
  }

  /**
   * deleteTransactions: admins only; the list must be present. Either every listed id is
   * valid and they are all deleted, or nothing is deleted.
   */
  method DeleteTransactions(db: Db, jwt: Session.Jwt, cookies: Session.Cookies,
                            ids: Option<seq<Id>>) returns (r: Reply<string>)
    modifies db
    ensures db.categories == old(db.categories) && db.accounts == old(db.accounts) &&
            db.groups == old(db.groups)
    ensures var d := Session.VerifyAuth(jwt, cookies, Session.Admin);
      (!d.flag ==> r == Fail(401, d.cause)) &&
      (d.flag && ids.None? ==> r == Fail(400, NO_IDS)) &&
      (r.Done? <==>
        d.flag && ids.Some? &&
        (forall i :: 0 <= i < |ids.value| ==>
          ids.value[i] != "" && TransactionById(old(db.transactions), ids.value[i]).Some?))
    ensures r.Done? ==> r.data == DELETED_MANY && db.transactions == RemoveIds(old(db.transactions), ids.value)
    ensures r.Fail? ==> db.transactions == old(db.transactions)
    ensures Integrity(db.categories, old(db.transactions)) ==> Integrity(db.categories, db.transactions)
  {
    var d := Session.VerifyAuth(jwt, cookies, Session.Admin);
    if !d.flag {
      return Fail(401, d.cause);
    }
    if ids.None? {
      return Fail(400, NO_IDS);
    }
    var err := CheckIds(db.transactions, ids.value);
    if err.Some? {
      return Fail(400, err.value);
    }
    ghost var txs0 := db.transactions;
    var i := 0;
    while i < |ids.value|
      invariant 0 <= i <= |ids.value|
      invariant RemoveIds(db.transactions, ids.value[i..]) == RemoveIds(txs0, ids.value)
      invariant forall t :: t in db.transactions ==> t in txs0
      invariant db.categories == old(db.categories) && db.accounts == old(db.accounts) &&
                db.groups == old(db.groups)
    {
      assert ids.value[i..][1..] == ids.value[i + 1..];
      db.transactions := RemoveId(db.transactions, ids.value[i]);
      i := i + 1;
    }
    assert ids.value[i..] == [];
    ghost var c := db.categories;
    assert Integrity(c, txs0) ==> Integrity(c, db.transactions) by {
      if Integrity(c, txs0) {
        forall k | 0 <= k < |db.transactions| ensures HasKind(c, db.transactions[k].category) {
          var t := db.transactions[k];
          assert t in txs0;
          var j :| 0 <= j < |txs0| && txs0[j] == t;
        }
      }
    }
    return Done(DELETED_MANY);
  }

  const USER_ROUTE_UNKNOWN := "The username don't exists"

  /**
   * The filter getTransactionsByUser runs: the user must exist; on the admin route the caller
   * must be an admin, on the user route the user named in the route; then the query
   * parameters are combined with the username.
   */
  function UserTransactionsFilter(accounts: seq<Account>, jwt: Session.Jwt, cookies: Session.Cookies,
                                  adminRoute: bool, username: string, q: Query, p: Parsers)
    : (r: Reply<TxFilter>)
    ensures r.Done? <==>
      HasUsername(accounts, username) &&
      Session.VerifyAuth(jwt, cookies, if adminRoute then Session.Admin else Session.User(username)).flag &&
      CombineFilters(username, q, p).Ok?
    ensures r.Done? ==> r.data == CombineFilters(username, q, p).value && r.data.username == username
    ensures HasUsername(accounts, username) &&
            !Session.VerifyAuth(jwt, cookies, if adminRoute then Session.Admin else Session.User(username)).flag ==>
      r.Fail? && r.status == 401
    ensures r.Fail? && r.status == 400 && HasUsername(accounts, username) ==>
      r.error == CombineFilters(username, q, p).msg
  {
    if !HasUsername(accounts, username) then Fail(400, USER_ROUTE_UNKNOWN)
    else
      var d := Session.VerifyAuth(jwt, cookies, if adminRoute then Session.Admin else Session.User(username));
      if !d.flag then Fail(401, d.cause)
      else match CombineFilters(username, q, p)
        case Err(m) => Fail(400, m)
        case Ok(f) => Done(f)
  }
}
