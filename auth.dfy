/**
 * The account endpoints of auth.js: registration of regular users and of admins, login,
 * which mints the token pair the session check later reads, and logout, which withdraws
 * the stored refresh token. The validation chains are pure checks; the account table is
 * updated in place.
 *
 * Password hashing and comparison are the two functions of `Crypto`; the random salt of the
 * hash is folded into `hash`.
 */
module Auth {
  import opened Store
  import Session
  import opened EmailFormat

  datatype Crypto = Crypto(hash: string -> string, compare: (string, string) -> bool)

  /** The token pair a successful login answers with. */
  datatype Tokens = Tokens(accessToken: string, refreshToken: string)

  const EMPTY_FIELD := "At least one of the parameters in the request body is an empty string"
  const MISSING_FIELD := "The request body does not contain all the necessary attributes"
  const BAD_EMAIL := "The email in the request body is not in a valid email format"
  const USERNAME_TAKEN := "The user in the request body identifies an already existing user"
  const EMAIL_TAKEN := "The email in the request body identifies an already existing user"
  const USER_ADDED := "User added successfully"
  const ADMIN_ADDED := "Admin added successfully"
  const UNKNOWN_EMAIL := "The user in the request body does not identify a user in the database"
  const WRONG_PASSWORD := "The supplied password does not match with the one in the database"
  const NO_TOKEN := "The request does not have a refresh token in the cookies"
  const NO_HOLDER := "The refresh token in the request's cookies does not represent a user in the database"
  const LOGGED_OUT := "User logged out"

  /** A hash that accepts the password it was computed from. */
  ghost predicate Sound(crypto: Crypto)
  {
    forall p :: crypto.compare(p, crypto.hash(p))
  }

  /** A hash that never equals the password it was computed from. */
  ghost predicate Hiding(crypto: Crypto)
  {
    forall p :: crypto.hash(p) != p
  }

  /** No refresh token is held by two accounts. */
  ghost predicate UniqueTokens(accounts: seq<Account>)
  {
    forall i, j :: 0 <= i < j < |accounts| && accounts[i].refreshToken.Some? ==>
      accounts[i].refreshToken != accounts[j].refreshToken
  }

  /**
   * The checks register and registerAdmin share, in the source's order: any empty field,
   * any missing field, the email's form, a taken username, a taken email. `None` when all pass.
   */
  function RegistrationRefusal(accounts: seq<Account>, username: Option<string>, email: Option<string>,
                               password: Option<string>): (r: Option<string>)
    ensures r.None? <==>
      Truthy(username) && Truthy(email) && Truthy(password) && IsEmail(email.value) &&
      !HasUsername(accounts, username.value) && !HasEmail(accounts, email.value)
    // an empty field is reported before a missing one
    ensures username == Some("") || email == Some("") || password == Some("") ==> r == Some(EMPTY_FIELD)
    ensures (Truthy(username) && Truthy(email) && Truthy(password) && IsEmail(email.value) &&
             HasUsername(accounts, username.value)) ==> r == Some(USERNAME_TAKEN)
  {
    if username == Some("") || email == Some("") || password == Some("") then Some(EMPTY_FIELD)
    else if username.None? || email.None? || password.None? then Some(MISSING_FIELD)
    else if !IsEmail(email.value) then Some(BAD_EMAIL)
    else
      HasUsernameIsFound(accounts, username.value);
      HasEmailIsFound(accounts, email.value);
      if AccountByUsername(accounts, username.value).Some? then Some(USERNAME_TAKEN)
      else if AccountByEmail(accounts, email.value).Some? then Some(EMAIL_TAKEN)
      else None
  }

  /**
   * The account `User.create` adds: a fresh id, the hash of the password, the given role
   * and no refresh token.
   */
  function NewAccount(accounts: seq<Account>, crypto: Crypto, username: string, email: string,
                      password: string, role: string): (a: Account)
    ensures a.id != "" && forall i :: 0 <= i < |accounts| ==> accounts[i].id != a.id
    ensures a.username == username && a.email == email && a.role == role && a.refreshToken.None?
    // the stored password is the hash, never the password itself when the hash hides it
    ensures a.password == crypto.hash(password)
    ensures Hiding(crypto) ==> a.password != password
  {
    var ids := Ids(accounts, (acc: Account) => acc.id);
    Account(FreshId(ids), username, email, crypto.hash(password), role, None)
  }

  /** Registration with a given role: after `RegistrationRefusal` passes, one account is added. */
  method Enrol(db: Db, crypto: Crypto, role: string, message: string, username: Option<string>,
               email: Option<string>, password: Option<string>) returns (r: Reply<string>)
    modifies db
    ensures db.groups == old(db.groups) && db.categories == old(db.categories) &&
            db.transactions == old(db.transactions)
    ensures var refusal := RegistrationRefusal(old(db.accounts), username, email, password);
      (refusal.Some? ==> r == Fail(400, refusal.value) && db.accounts == old(db.accounts)) &&
      (refusal.None? ==>
        r == Done(message) &&
        db.accounts == old(db.accounts) +
                       [NewAccount(old(db.accounts), crypto, username.value, email.value, password.value, role)])
    ensures UniqueAccounts(old(db.accounts)) ==> UniqueAccounts(db.accounts)
  {
    var refusal := RegistrationRefusal(db.accounts, username, email, password);
    if refusal.Some? {
      return Fail(400, refusal.value);
    }
    var a := NewAccount(db.accounts, crypto, username.value, email.value, password.value, role);
    ghost var before := db.accounts;
    db.accounts := db.accounts + [a];
    assert UniqueAccounts(before) ==> UniqueAccounts(db.accounts) by {
      if UniqueAccounts(before) {
        forall i, j | 0 <= i < j < |db.accounts|
          ensures db.accounts[i].username != db.accounts[j].username &&
                  db.accounts[i].email != db.accounts[j].email
        {
          assert db.accounts[i] == before[i];
          assert j < |before| ==> db.accounts[j] == before[j];
        }
      }
    }
    return Done(message);
  }

  /** register: a regular account. */
  method Register(db: Db, crypto: Crypto, username: Option<string>, email: Option<string>,
                  password: Option<string>) returns (r: Reply<string>)
    modifies db
    ensures db.groups == old(db.groups) && db.categories == old(db.categories) &&
            db.transactions == old(db.transactions)
    ensures var refusal := RegistrationRefusal(old(db.accounts), username, email, password);
      (refusal.Some? ==> r == Fail(400, refusal.value) && db.accounts == old(db.accounts)) &&
      (refusal.None? ==>
        r == Done(USER_ADDED) &&
        db.accounts == old(db.accounts) +
                       [NewAccount(old(db.accounts), crypto, username.value, email.value, password.value, REGULAR)])
    ensures UniqueAccounts(old(db.accounts)) ==> UniqueAccounts(db.accounts)
  {
    r := Enrol(db, crypto, REGULAR, USER_ADDED, username, email, password);
  }

  /** registerAdmin: an admin account, with the same checks. */
  method RegisterAdmin(db: Db, crypto: Crypto, username: Option<string>, email: Option<string>,
                       password: Option<string>) returns (r: Reply<string>)
    modifies db
    ensures db.groups == old(db.groups) && db.categories == old(db.categories) &&
            db.transactions == old(db.transactions)
    ensures var refusal := RegistrationRefusal(old(db.accounts), username, email, password);
      (refusal.Some? ==> r == Fail(400, refusal.value) && db.accounts == old(db.accounts)) &&
      (refusal.None? ==>
        r == Done(ADMIN_ADDED) &&
        db.accounts == old(db.accounts) +
                       [NewAccount(old(db.accounts), crypto, username.value, email.value, password.value, ADMIN)])
    ensures UniqueAccounts(old(db.accounts)) ==> UniqueAccounts(db.accounts)
  {
    r := Enrol(db, crypto, ADMIN, ADMIN_ADDED, username, email, password);
  }

  /**
   * The checks of login, in the source's order: any empty field, any missing field, the
   * email's form, an account with that email, the password against its hash. `None` when all pass.
   */
  function LoginRefusal(accounts: seq<Account>, crypto: Crypto, email: Option<string>,
                        password: Option<string>): (r: Option<string>)
    ensures r.None? <==>
      Truthy(email) && Truthy(password) && IsEmail(email.value) &&
      AccountByEmail(accounts, email.value).Some? &&
      crypto.compare(password.value, accounts[AccountByEmail(accounts, email.value).value].password)
    ensures email == Some("") || password == Some("") ==> r == Some(EMPTY_FIELD)
    ensures (Truthy(email) && Truthy(password) && IsEmail(email.value) && !HasEmail(accounts, email.value)) ==>
      r == Some(UNKNOWN_EMAIL)
  {
    if email == Some("") || password == Some("") then Some(EMPTY_FIELD)
    else if email.None? || password.None? then Some(MISSING_FIELD)
    else if !IsEmail(email.value) then Some(BAD_EMAIL)
    else
      HasEmailIsFound(accounts, email.value);
      match AccountByEmail(accounts, email.value)
      case None => Some(UNKNOWN_EMAIL)
      case Some(i) => if !crypto.compare(password.value, accounts[i].password) then Some(WRONG_PASSWORD) else None
  }

  /** The identity claims both tokens of a login carry. */
  function ClaimsOf(a: Account): (c: Session.Claims)
    ensures c.username == Some(a.username) && c.email == Some(a.email) && c.id == Some(a.id) &&
      c.role == Some(a.role)
  {
    Session.Claims(Some(a.username), Some(a.email), Some(a.id), Some(a.role))
  }

  /**
   * login: after `LoginRefusal` passes, an access token (1h) and a refresh token (7d) are
   * signed over the same claims of the account, and the refresh token is stored on it.
   */
  method Login(db: Db, crypto: Crypto, jwt: Session.Jwt, email: Option<string>, password: Option<string>)
    returns (r: Reply<Tokens>)
    modifies db
    ensures db.groups == old(db.groups) && db.categories == old(db.categories) &&
            db.transactions == old(db.transactions)
    ensures var refusal := LoginRefusal(old(db.accounts), crypto, email, password);
      (refusal.Some? ==> r == Fail(400, refusal.value) && db.accounts == old(db.accounts)) &&
      (refusal.None? ==>
        var i := AccountByEmail(old(db.accounts), email.value).value;
        var c := ClaimsOf(old(db.accounts)[i]);
        r == Done(Tokens(jwt.sign(c, Session.OneHour), jwt.sign(c, Session.SevenDays))) &&
        db.accounts == old(db.accounts)[i := old(db.accounts)[i].(refreshToken := Some(r.data.refreshToken))])
    ensures UniqueAccounts(old(db.accounts)) ==> UniqueAccounts(db.accounts)
  {
    var refusal := LoginRefusal(db.accounts, crypto, email, password);
    if refusal.Some? {
      return Fail(400, refusal.value);
    }
    var i := AccountByEmail(db.accounts, email.value).value;
    var c := ClaimsOf(db.accounts[i]);
    var access := jwt.sign(c, Session.OneHour);
    var refresh := jwt.sign(c, Session.SevenDays);
    db.accounts := db.accounts[i := db.accounts[i].(refreshToken := Some(refresh))];
    return Done(Tokens(access, refresh));
  }

  /** The checks of logout: a refresh-token cookie, and an account holding it. `None` when both pass. */
  function LogoutRefusal(accounts: seq<Account>, cookies: Session.Cookies): (r: Option<string>)
    ensures r.None? <==>
      Truthy(cookies.refreshToken) && AccountByToken(accounts, cookies.refreshToken.value).Some?
    ensures !Truthy(cookies.refreshToken) ==> r == Some(NO_TOKEN)
  {
    if !Truthy(cookies.refreshToken) then Some(NO_TOKEN)
    else if AccountByToken(accounts, cookies.refreshToken.value).None? then Some(NO_HOLDER)
    else None
  }

  /** logout: after `LogoutRefusal` passes, the holder's refresh token is cleared, and nothing else. */
  method Logout(db: Db, cookies: Session.Cookies) returns (r: Reply<string>)
    modifies db
    ensures db.groups == old(db.groups) && db.categories == old(db.categories) &&
            db.transactions == old(db.transactions)
    ensures var refusal := LogoutRefusal(old(db.accounts), cookies);
      (refusal.Some? ==> r == Fail(400, refusal.value) && db.accounts == old(db.accounts)) &&
      (refusal.None? ==>
        var i := AccountByToken(old(db.accounts), cookies.refreshToken.value).value;
        r == Done(LOGGED_OUT) &&
        db.accounts == old(db.accounts)[i := old(db.accounts)[i].(refreshToken := None)])
    ensures UniqueAccounts(old(db.accounts)) ==> UniqueAccounts(db.accounts)
    ensures UniqueTokens(old(db.accounts)) ==> UniqueTokens(db.accounts)
  {
    var refusal := LogoutRefusal(db.accounts, cookies);
    if refusal.Some? {
      return Fail(400, refusal.value);
    }
    var i := AccountByToken(db.accounts, cookies.refreshToken.value).value;
    db.accounts := db.accounts[i := db.accounts[i].(refreshToken := None)];
    return Done(LOGGED_OUT);
  }

  /**
   * Round trip of registration: with a sound hash, the account just registered can log in
   * with the same email and password, and the login finds that account.
   */
  lemma RegisteredCanLogIn(accounts: seq<Account>, crypto: Crypto, username: Option<string>,
                           email: Option<string>, password: Option<string>, role: string)
    requires Sound(crypto)
    requires RegistrationRefusal(accounts, username, email, password).None?
    ensures var after := accounts + [NewAccount(accounts, crypto, username.value, email.value, password.value, role)];
      LoginRefusal(after, crypto, email, password).None? &&
      AccountByEmail(after, email.value) == Some(|accounts|)
  {
    var a := NewAccount(accounts, crypto, username.value, email.value, password.value, role);
    var after := accounts + [a];
    HasEmailIsFound(accounts, email.value);
    assert forall j :: 0 <= j < |accounts| ==> after[j] == accounts[j];
    assert after[|accounts|] == a;
    assert crypto.compare(password.value, crypto.hash(password.value));
  }

  /**
   * The tokens of a login open exactly the capabilities of the account's claims: sent back
   * as the cookie pair, they are granted for an `authType` if and only if the account's
   * username, email and role meet it, and nothing is renewed.
   */
  lemma LoginTokensGrant(jwt: Session.Jwt, a: Account)
    requires Session.SoundSigner(jwt)
    requires a.username != "" && a.email != "" && a.role != ""
    requires jwt.sign(ClaimsOf(a), Session.OneHour) != "" && jwt.sign(ClaimsOf(a), Session.SevenDays) != ""
    ensures var cookies := Session.Cookies(Some(jwt.sign(ClaimsOf(a), Session.OneHour)),
                                           Some(jwt.sign(ClaimsOf(a), Session.SevenDays)));
      forall info :: Session.VerifyAuth(jwt, cookies, info).flag == Session.Satisfies(info, ClaimsOf(a)) &&
                     Session.VerifyAuth(jwt, cookies, info).rotated.None?
  {
    var c := ClaimsOf(a);
    assert jwt.verify(jwt.sign(c, Session.OneHour)) == Session.Valid(c);
    assert jwt.verify(jwt.sign(c, Session.SevenDays)) == Session.Valid(c);
  }

  /**
   * Round trip of logout: with refresh tokens unique, a second logout with the same cookie
   * is refused, because no account holds the token any more.
   */
  lemma SecondLogoutFails(accounts: seq<Account>, cookies: Session.Cookies)
    requires UniqueTokens(accounts)
    requires LogoutRefusal(accounts, cookies).None?
    ensures var i := AccountByToken(accounts, cookies.refreshToken.value).value;
      LogoutRefusal(accounts[i := accounts[i].(refreshToken := None)], cookies) == Some(NO_HOLDER)
  {
    var i := AccountByToken(accounts, cookies.refreshToken.value).value;
    var after := accounts[i := accounts[i].(refreshToken := None)];
    forall j | 0 <= j < |after| ensures after[j].refreshToken != cookies.refreshToken {
      assert j < i ==> accounts[j].refreshToken != cookies.refreshToken;
      assert j > i ==> accounts[i].refreshToken != accounts[j].refreshToken;
    }
  }
}
