/**
 * The group and account endpoints of users.js over the one mutable store: creating a group,
 * adding and removing members, deleting an account with its cascade, and deleting a group.
 * Each endpoint validates its request in the source's order, answers a failure with the
 * status and message the source sends, and otherwise updates the store.
 */
module Users {
  import opened Store
  import Session
  import opened EmailFormat
  import opened GroupStore

  /**
   * The two mount points of the membership endpoints: the one for members of the group
   * (`add`, `remove`) and the one for admins (`insert`, `pull`).
   */
  datatype Route = MemberRoute | AdminRoute

  /** The data of a group reply: the group's name and member emails, then the excluded and unknown candidates. */
  datatype GroupReport = GroupReport(name: string, members: seq<string>, excluded: seq<string>,
                                     notFound: seq<string>)

  /** The data of a deleteUser reply. */
  datatype UserDeletion = UserDeletion(deletedTransactions: nat, deletedFromGroup: bool)

  const NOT_AUTHENTICATED := "The user is not authenticated"
  const MISSING_ATTRIBUTES := "The request body does not contain all the necessary attributes"
  const EMPTY_NAME := "The group name passed in the request body is an empty string"
  const GROUP_EXISTS := "The group name passed in the request body represents an already existing group in the database"
  const NULL_CALLER := "Cannot read properties of null (reading 'email')"
  const CALLER_IN_GROUP := "The user who calls the API is already in a group"
  const EMPTY_EMAIL := "At least one of the member emails is an empty string"
  const BAD_EMAIL := "At least one of the member emails is not in a valid email format"
  const NOTHING_TO_CREATE := "All the `memberEmails` either do not exist or they are already in a group"
  const GROUP_NOT_FOUND := "Group not found"
  const NOTHING_TO_ADD := "All the `memberEmails` either do not exist or are already in a group"
  const SINGLE_MEMBER := "The group contains only one member"
  const NOTHING_TO_REMOVE := "All the `memberEmails` either do not exist or are not in the group"
  const WOULD_EMPTY := "The removal would leave the group without members"
  const EMPTY_TARGET := "The email passed in the request body is an empty string"
  const BAD_TARGET := "The email passed in the request body is not in correct email format"
  const USER_NOT_FOUND := "User not found"
  const ADMIN_TARGET := "Cannot delete an admin"
  const EMPTY_GROUP_NAME := "The name passed in the request body is an empty string"
  const GROUP_DELETED := "Group deleted successfully"

  /** A candidate email passes the check: non-empty and of the accepted form. */
  predicate WellFormed(e: string)
  {
    e != "" && IsEmail(e)
  }

  /** The message for the first candidate that fails the check, or `None` when all pass. */
  function EmailRefusal(emails: seq<string>): (r: Option<string>)
    ensures r.None? <==> forall i :: 0 <= i < |emails| ==> WellFormed(emails[i])
    decreases |emails|
  {
    if emails == [] then None
    else if emails[0] == "" then Some(EMPTY_EMAIL)
    else if !IsEmail(emails[0]) then Some(BAD_EMAIL)
    else
      assert forall i :: 1 <= i < |emails| ==> emails[i] == emails[1..][i - 1];
      EmailRefusal(emails[1..])
  }

  /**
   * The refusal names the first candidate that fails: "empty string" when it is empty, and
   * "not in a valid email format" otherwise.
   */
  lemma {:induction false} EmailRefusalNamesFirst(emails: seq<string>)
    ensures EmailRefusal(emails).Some? ==>
      exists k :: 0 <= k < |emails| && !WellFormed(emails[k]) &&
        (forall j :: 0 <= j < k ==> WellFormed(emails[j])) &&
        EmailRefusal(emails).value == (if emails[k] == "" then EMPTY_EMAIL else BAD_EMAIL)
    decreases |emails|
  {
    if emails != [] && WellFormed(emails[0]) {
      var tail := emails[1..];
      EmailRefusalNamesFirst(tail);
      assert EmailRefusal(emails) == EmailRefusal(tail);
      if EmailRefusal(tail).Some? {
        var k :| 0 <= k < |tail| && !WellFormed(tail[k]) &&
                 (forall j :: 0 <= j < k ==> WellFormed(tail[j])) &&
                 EmailRefusal(tail).value == (if tail[k] == "" then EMPTY_EMAIL else BAD_EMAIL);
        assert emails[k + 1] == tail[k];
        assert forall j :: 1 <= j < k + 1 ==> emails[j] == tail[j - 1];
      }
    } else if emails != [] {
      assert !WellFormed(emails[0]);
    }
  }

  /** The check loop shared by the three membership endpoints. */
  method CheckEmails(emails: seq<string>) returns (r: Option<string>)
    ensures r == EmailRefusal(emails)
  {
    var i := 0;
    while i < |emails|
      invariant 0 <= i <= |emails|
      invariant EmailRefusal(emails[i..]) == EmailRefusal(emails)
    {
      assert emails[i..][0] == emails[i] && emails[i..][1..] == emails[i + 1..];
      if emails[i] == "" {
        return Some(EMPTY_EMAIL);
      }
      if !IsEmail(emails[i]) {
        return Some(BAD_EMAIL);
      }
      i := i + 1;
    }
    assert emails[i..] == [];
    return None;
  }

  /** The partition loop of createGroup and addToGroup, one store lookup pair per candidate. */
  method PartitionForAdd(accounts: seq<Account>, groups: seq<Group>, emails: seq<string>)
    returns (notFound: seq<string>, already: seq<string>, toAdd: seq<Member>)
    ensures AddSplit(notFound, already, toAdd) == SplitForAdd(accounts, groups, emails)
  {
    notFound, already, toAdd := [], [], [];
    var i := 0;
    while i < |emails|
      invariant 0 <= i <= |emails|
      invariant AddSplit(notFound, already, toAdd) == SplitForAdd(accounts, groups, emails[..i])
    {
      var e := emails[i];
      assert emails[..i + 1][..i] == emails[..i] && emails[..i + 1][i] == e;
      var account := AccountByEmail(accounts, e);
      var inGroup := GroupWithMember(groups, e);
      if account.None? {
        notFound := notFound + [e];
      } else if inGroup.Some? {
        already := already + [e];
      } else {
        toAdd := toAdd + [Member(e, accounts[account.value].id)];
      }
      i := i + 1;
    }
    assert emails[..i] == emails;
  }

  /** The scan of the group's members for one candidate email. */
  method ScanMembers(members: seq<Member>, e: string) returns (found: bool)
    ensures found <==> e in Emails(members)
  {
    found := false;
    var j := 0;
    while j < |members|
      invariant 0 <= j <= |members|
      invariant found <==> exists k :: 0 <= k < j && members[k].email == e
    {
      if members[j].email == e {
        found := true;
      }
      j := j + 1;
    }
    ghost var es := Emails(members);
    assert e in es ==> exists k :: 0 <= k < |members| && es[k] == e;
  }

  /** The partition loop of removeFromGroup, scanning the group's members for each candidate. */
  method PartitionForRemove(accounts: seq<Account>, members: seq<Member>, emails: seq<string>)
    returns (notFound: seq<string>, notInGroup: seq<string>, toRemove: seq<string>)
    ensures RemoveSplit(notFound, notInGroup, toRemove) == SplitForRemove(accounts, members, emails)
  {
    notFound, notInGroup, toRemove := [], [], [];
    var i := 0;
    while i < |emails|
      invariant 0 <= i <= |emails|
      invariant RemoveSplit(notFound, notInGroup, toRemove) == SplitForRemove(accounts, members, emails[..i])
    {
      var e := emails[i];
      assert emails[..i + 1][..i] == emails[..i] && emails[..i + 1][i] == e;
      if AccountByEmail(accounts, e).None? {
        notFound := notFound + [e];
      } else {
        var found := ScanMembers(members, e);
        if !found {
          notInGroup := notInGroup + [e];
        } else {
          toRemove := toRemove + [e];
        }
      }
      i := i + 1;
    }
    assert emails[..i] == emails;
  }

  /** The account holding the caller's refresh token, as `User.findOne({refreshToken})` finds it. */
  function Caller(accounts: seq<Account>, cookies: Session.Cookies): (r: Option<nat>)
    ensures r.Some? ==> r.value < |accounts| && cookies.refreshToken.Some? &&
                        accounts[r.value].refreshToken == cookies.refreshToken
  {
    // every grant implies the cookie, so the `None` branch is never consulted after a grant
    if cookies.refreshToken.None? then None else AccountByToken(accounts, cookies.refreshToken.value)
  }

  /** The candidate list with the caller's email pushed at the end when it is absent. */
  function WithCaller(emails: seq<string>, caller: string): (r: seq<string>)
    ensures caller in r && emails <= r && |r| <= |emails| + 1
    ensures forall e :: e in r ==> e in emails || e == caller
  {
    if caller in emails then emails else emails + [caller]
  }

  /**
   * The checks of createGroup before the partition, in the source's order: authentication,
   * the attributes, the name, the caller's own membership, the candidate emails. `None` when
   * all pass.
   */
  function CreationRefusal(accounts: seq<Account>, groups: seq<Group>, jwt: Session.Jwt,
                           cookies: Session.Cookies, name: Option<string>,
                           emails: Option<seq<string>>): (r: Option<Reply<GroupReport>>)
    ensures r.Some? ==> r.value.Fail?
    ensures r.None? <==>
      Session.VerifyAuth(jwt, cookies, Session.Simple).flag && Truthy(name) && emails.Some? &&
      GroupByName(groups, name.value).None? && Caller(accounts, cookies).Some? &&
      !InSomeGroup(groups, accounts[Caller(accounts, cookies).value].email) &&
      forall i :: 0 <= i < |emails.value| ==> WellFormed(emails.value[i])
    ensures !Session.VerifyAuth(jwt, cookies, Session.Simple).flag ==> r == Some(Fail(401, NOT_AUTHENTICATED))
    // an empty name is reported as such even when the list is missing
    ensures Session.VerifyAuth(jwt, cookies, Session.Simple).flag && name == Some("") ==>
      r == Some(Fail(400, EMPTY_NAME))
  {
    if !Session.VerifyAuth(jwt, cookies, Session.Simple).flag then Some(Fail(401, NOT_AUTHENTICATED))
    else if (!Truthy(name) || emails.None?) && name != Some("") then Some(Fail(400, MISSING_ATTRIBUTES))
    else if name == Some("") then Some(Fail(400, EMPTY_NAME))
    else if GroupByName(groups, name.value).Some? then Some(Fail(400, GROUP_EXISTS))
    else match Caller(accounts, cookies)
      // reading the email of a null caller throws, and the handler answers 500
      case None => Some(Fail(500, NULL_CALLER))
      case Some(k) =>
        InSomeGroupIsFound(groups, accounts[k].email);
        if GroupWithMember(groups, accounts[k].email).Some? then Some(Fail(400, CALLER_IN_GROUP))
        else match EmailRefusal(emails.value)
          case Some(m) => Some(Fail(400, m))
          case None => None
  }

  /**
   * createGroup: after `CreationRefusal` passes, the caller's email joins the candidates and
   * the partition decides; a group whose only eligible member would be the caller is refused,
   * otherwise the group is created with exactly the eligible members.
   */
  method CreateGroup(db: Db, jwt: Session.Jwt, cookies: Session.Cookies, name: Option<string>,
                     emails: Option<seq<string>>) returns (r: Reply<GroupReport>)
    modifies db
    ensures db.accounts == old(db.accounts) && db.categories == old(db.categories) &&
            db.transactions == old(db.transactions)
    ensures var refusal := CreationRefusal(old(db.accounts), old(db.groups), jwt, cookies, name, emails);
      (refusal.Some? ==> r == refusal.value && db.groups == old(db.groups)) &&
      (refusal.None? ==>
        var caller := old(db.accounts)[Caller(old(db.accounts), cookies).value].email;
        var s := SplitForAdd(old(db.accounts), old(db.groups), WithCaller(emails.value, caller));
        (|s.toAdd| == 1 ==> r == Fail(400, NOTHING_TO_CREATE) && db.groups == old(db.groups)) &&
        (|s.toAdd| != 1 ==>
          r == Done(GroupReport(name.value, Emails(s.toAdd), s.already, s.notFound)) &&
          db.groups == old(db.groups) + [Group(name.value, s.toAdd)] &&
          // the caller is a member, and the group has at least two entries
          caller in Emails(s.toAdd) && |s.toAdd| >= 2))
    ensures Exclusive(old(db.groups)) ==> Exclusive(db.groups)
    ensures UniqueNames(old(db.groups)) ==> UniqueNames(db.groups)
    ensures Populated(old(db.groups)) ==> Populated(db.groups)
  {
    var refusal := CreationRefusal(db.accounts, db.groups, jwt, cookies, name, emails);
    if refusal.Some? {
      return refusal.value;
    }
    var caller := db.accounts[Caller(db.accounts, cookies).value].email;
    assert HasEmail(db.accounts, caller);
    r := Establish(db, name.value, WithCaller(emails.value, caller), caller);
  }

  /**
   * The store change of createGroup once its checks pass: the partition of the candidates,
   * which include the ungrouped caller, decides whether the group is created.
   */
  method Establish(db: Db, name: string, candidates: seq<string>, caller: string)
    returns (r: Reply<GroupReport>)
    requires caller in candidates && HasEmail(db.accounts, caller) && !InSomeGroup(db.groups, caller)
    requires GroupByName(db.groups, name).None?
    modifies db
    ensures db.accounts == old(db.accounts) && db.categories == old(db.categories) &&
            db.transactions == old(db.transactions)
    ensures var s := SplitForAdd(old(db.accounts), old(db.groups), candidates);
      (|s.toAdd| == 1 ==> r == Fail(400, NOTHING_TO_CREATE) && db.groups == old(db.groups)) &&
      (|s.toAdd| != 1 ==>
        r == Done(GroupReport(name, Emails(s.toAdd), s.already, s.notFound)) &&
        db.groups == old(db.groups) + [Group(name, s.toAdd)] &&
        caller in Emails(s.toAdd) && |s.toAdd| >= 2)
    ensures Exclusive(old(db.groups)) ==> Exclusive(db.groups)
    ensures UniqueNames(old(db.groups)) ==> UniqueNames(db.groups)
    ensures Populated(old(db.groups)) ==> Populated(db.groups)
  {
    var notFound, already, toAdd := PartitionForAdd(db.accounts, db.groups, candidates);
    EligibleIsAdded(db.accounts, db.groups, candidates, caller);
    if |toAdd| == 1 {
      return Fail(400, NOTHING_TO_CREATE);
    }
    var g := Group(name, toAdd);
    AddedAreUngrouped(db.accounts, db.groups, candidates);
    if Exclusive(db.groups) {
      ExclusiveAfterCreate(db.groups, g);
    }
    AppendGroupKeeps(db.groups, g);
    db.groups := db.groups + [g];
    return Done(GroupReport(name, Emails(toAdd), already, notFound));
  }

  /** The capability the route demands: membership of the group, or the admin role. */
  function RouteAuth(route: Route, members: seq<Member>): Session.AuthInfo
  {
    match route
    case MemberRoute => Session.Group(Emails(members))
    case AdminRoute => Session.Admin
  }

  /**
   * The checks of addToGroup before the partition: the list and the name present, the group
   * found, the candidates well formed, the caller allowed on this route. `None` when all pass.
   */
  function AdditionRefusal(groups: seq<Group>, jwt: Session.Jwt, cookies: Session.Cookies,
                           route: Route, name: Option<string>, emails: Option<seq<string>>)
    : (r: Option<Reply<GroupReport>>)
    ensures r.Some? ==> r.value.Fail?
    ensures r.None? <==>
      emails.Some? && Truthy(name) && GroupByName(groups, name.value).Some? &&
      (forall i :: 0 <= i < |emails.value| ==> WellFormed(emails.value[i])) &&
      Session.VerifyAuth(jwt, cookies, RouteAuth(route, groups[GroupByName(groups, name.value).value].members)).flag
    ensures r.Some? && r.value.status == 401 ==>
      Truthy(name) && GroupByName(groups, name.value).Some? &&
      !Session.VerifyAuth(jwt, cookies, RouteAuth(route, groups[GroupByName(groups, name.value).value].members)).flag
  {
    if emails.None? || !Truthy(name) then Some(Fail(400, MISSING_ATTRIBUTES))
    else match GroupByName(groups, name.value)
      case None => Some(Fail(400, GROUP_NOT_FOUND))
      case Some(k) =>
        match EmailRefusal(emails.value)
        case Some(m) => Some(Fail(400, m))
        case None =>
          var d := Session.VerifyAuth(jwt, cookies, RouteAuth(route, groups[k].members));
          if !d.flag then Some(Fail(401, d.cause)) else None
  }

  /**
   * addToGroup: after `AdditionRefusal` passes, the partition decides; with nothing eligible
   * the call fails, otherwise the eligible members are appended to the group's members.
   */
  method AddToGroup(db: Db, jwt: Session.Jwt, cookies: Session.Cookies, route: Route,
                    name: Option<string>, emails: Option<seq<string>>) returns (r: Reply<GroupReport>)
    modifies db
    ensures db.accounts == old(db.accounts) && db.categories == old(db.categories) &&
            db.transactions == old(db.transactions)
    ensures var refusal := AdditionRefusal(old(db.groups), jwt, cookies, route, name, emails);
      (refusal.Some? ==> r == refusal.value && db.groups == old(db.groups)) &&
      (refusal.None? ==>
        var k := GroupByName(old(db.groups), name.value).value;
        var s := SplitForAdd(old(db.accounts), old(db.groups), emails.value);
        var members := old(db.groups)[k].members + s.toAdd;
        (|s.toAdd| == 0 ==> r == Fail(400, NOTHING_TO_ADD) && db.groups == old(db.groups)) &&
        (|s.toAdd| > 0 ==>
          r == Done(GroupReport(name.value, Emails(members), s.already, s.notFound)) &&
          db.groups == old(db.groups)[k := Group(name.value, members)]))
    ensures Exclusive(old(db.groups)) ==> Exclusive(db.groups)
    ensures UniqueNames(old(db.groups)) ==> UniqueNames(db.groups)
    ensures Populated(old(db.groups)) ==> Populated(db.groups)
  {
    var refusal := AdditionRefusal(db.groups, jwt, cookies, route, name, emails);
    if refusal.Some? {
      return refusal.value;
    }
    var k := GroupByName(db.groups, name.value).value;
    r := Enlist(db, k, name.value, emails.value);
  }

  /** The store change of addToGroup once its checks pass, on group `k` named `name`. */
  method Enlist(db: Db, k: nat, name: string, emails: seq<string>) returns (r: Reply<GroupReport>)
    requires k < |db.groups| && db.groups[k].name == name
    modifies db
    ensures db.accounts == old(db.accounts) && db.categories == old(db.categories) &&
            db.transactions == old(db.transactions)
    ensures var s := SplitForAdd(old(db.accounts), old(db.groups), emails);
      var members := old(db.groups)[k].members + s.toAdd;
      (|s.toAdd| == 0 ==> r == Fail(400, NOTHING_TO_ADD) && db.groups == old(db.groups)) &&
      (|s.toAdd| > 0 ==>
        r == Done(GroupReport(name, Emails(members), s.already, s.notFound)) &&
        db.groups == old(db.groups)[k := Group(name, members)])
    ensures Exclusive(old(db.groups)) ==> Exclusive(db.groups)
    ensures UniqueNames(old(db.groups)) ==> UniqueNames(db.groups)
    ensures Populated(old(db.groups)) ==> Populated(db.groups)
  {
    var notFound, already, toAdd := PartitionForAdd(db.accounts, db.groups, emails);
    if |toAdd| == 0 {
      return Fail(400, NOTHING_TO_ADD);
    }
    AddedAreUngrouped(db.accounts, db.groups, emails);
    if Exclusive(db.groups) {
      ExclusiveAfterAdd(db.groups, k, toAdd);
    }
    var members := db.groups[k].members + toAdd;
    ReplaceMembersKeeps(db.groups, k, members);
    db.groups := db.groups[k := Group(name, members)];
    return Done(GroupReport(name, Emails(members), already, notFound));
  }

  /**
   * The checks of removeFromGroup before the partition: the list present, the group found,
   * the candidates well formed, more than one member, the caller allowed on this route.
   * `None` when all pass.
   */
  function WithdrawalRefusal(groups: seq<Group>, jwt: Session.Jwt, cookies: Session.Cookies,
                             route: Route, name: string, emails: Option<seq<string>>)
    : (r: Option<Reply<GroupReport>>)
    ensures r.Some? ==> r.value.Fail?
    ensures r.None? <==>
      emails.Some? && GroupByName(groups, name).Some? &&
      (forall i :: 0 <= i < |emails.value| ==> WellFormed(emails.value[i])) &&
      |groups[GroupByName(groups, name).value].members| != 1 &&
      Session.VerifyAuth(jwt, cookies, RouteAuth(route, groups[GroupByName(groups, name).value].members)).flag
    // a single-member group refuses any removal once the list is well formed
    ensures emails.Some? && GroupByName(groups, name).Some? && EmailRefusal(emails.value).None? &&
            |groups[GroupByName(groups, name).value].members| == 1 ==>
      r == Some(Fail(400, SINGLE_MEMBER))
  {
    if emails.None? then Some(Fail(400, MISSING_ATTRIBUTES))
    else match GroupByName(groups, name)
      case None => Some(Fail(400, GROUP_NOT_FOUND))
      case Some(k) =>
        match EmailRefusal(emails.value)
        case Some(m) => Some(Fail(400, m))
        case None =>
          if |groups[k].members| == 1 then Some(Fail(400, SINGLE_MEMBER))
          else
            var d := Session.VerifyAuth(jwt, cookies, RouteAuth(route, groups[k].members));
            if !d.flag then Some(Fail(401, d.cause)) else None
  }

  /**
   * removeFromGroup: after `WithdrawalRefusal` passes, the partition decides; with nothing to
   * remove the call fails. Unlike the source, a removal that would leave the group without
   * members is refused too; otherwise the listed members are pulled.
   */
  method RemoveFromGroup(db: Db, jwt: Session.Jwt, cookies: Session.Cookies, route: Route,
                         name: string, emails: Option<seq<string>>) returns (r: Reply<GroupReport>)
    modifies db
    ensures db.accounts == old(db.accounts) && db.categories == old(db.categories) &&
            db.transactions == old(db.transactions)
    ensures var refusal := WithdrawalRefusal(old(db.groups), jwt, cookies, route, name, emails);
      (refusal.Some? ==> r == refusal.value && db.groups == old(db.groups)) &&
      (refusal.None? ==>
        var k := GroupByName(old(db.groups), name).value;
        var s := SplitForRemove(old(db.accounts), old(db.groups)[k].members, emails.value);
        var rest := RemoveMembers(old(db.groups)[k].members, s.toRemove);
        (|s.toRemove| == 0 ==> r == Fail(400, NOTHING_TO_REMOVE) && db.groups == old(db.groups)) &&
        (|s.toRemove| > 0 && rest == [] ==> r == Fail(400, WOULD_EMPTY) && db.groups == old(db.groups)) &&
        (|s.toRemove| > 0 && rest != [] ==>
          r == Done(GroupReport(name, Emails(rest), s.notInGroup, s.notFound)) &&
          db.groups == old(db.groups)[k := Group(name, rest)]))
    ensures Exclusive(old(db.groups)) ==> Exclusive(db.groups)
    ensures UniqueNames(old(db.groups)) ==> UniqueNames(db.groups)
    ensures Populated(old(db.groups)) ==> Populated(db.groups)
  {
    var refusal := WithdrawalRefusal(db.groups, jwt, cookies, route, name, emails);
    if refusal.Some? {
      return refusal.value;
    }
    var k := GroupByName(db.groups, name).value;
    r := Withdraw(db, k, name, emails.value);
  }

  /**
   * The store change of removeFromGroup once its checks pass, on group `k` named `name`:
   * a removal that would leave the group without members is refused.
   */
  method Withdraw(db: Db, k: nat, name: string, emails: seq<string>) returns (r: Reply<GroupReport>)
    requires k < |db.groups| && db.groups[k].name == name
    modifies db
    ensures db.accounts == old(db.accounts) && db.categories == old(db.categories) &&
            db.transactions == old(db.transactions)
    ensures var s := SplitForRemove(old(db.accounts), old(db.groups)[k].members, emails);
      var rest := RemoveMembers(old(db.groups)[k].members, s.toRemove);
      (|s.toRemove| == 0 ==> r == Fail(400, NOTHING_TO_REMOVE) && db.groups == old(db.groups)) &&
      (|s.toRemove| > 0 && rest == [] ==> r == Fail(400, WOULD_EMPTY) && db.groups == old(db.groups)) &&
      (|s.toRemove| > 0 && rest != [] ==>
        r == Done(GroupReport(name, Emails(rest), s.notInGroup, s.notFound)) &&
        db.groups == old(db.groups)[k := Group(name, rest)])
    ensures Exclusive(old(db.groups)) ==> Exclusive(db.groups)
    ensures UniqueNames(old(db.groups)) ==> UniqueNames(db.groups)
    ensures Populated(old(db.groups)) ==> Populated(db.groups)
  {
    var notFound, notInGroup, toRemove := PartitionForRemove(db.accounts, db.groups[k].members, emails);
    assert RemoveSplit(notFound, notInGroup, toRemove) == SplitForRemove(old(db.accounts), old(db.groups)[k].members, emails);
    if |toRemove| == 0 {
      return Fail(400, NOTHING_TO_REMOVE);
    }
    var rest := RemoveMembers(db.groups[k].members, toRemove);
    if rest == [] {
      return Fail(400, WOULD_EMPTY);
    }
    ExclusiveAfterRemove(db.groups, k, toRemove);
    ReplaceMembersKeeps(db.groups, k, rest);
    db.groups := db.groups[k := Group(name, rest)];
    r := Done(GroupReport(name, Emails(rest), notInGroup, notFound));
  }

  /**
   * The checks of deleteUser, in the source's order: the email present, non-empty and well
   * formed, an account with it, not an admin, and an admin caller. `None` when all pass.
   */
  function DeletionRefusal(accounts: seq<Account>, jwt: Session.Jwt, cookies: Session.Cookies,
                           email: Option<string>): (r: Option<Reply<UserDeletion>>)
    ensures r.Some? ==> r.value.Fail?
    ensures r.None? <==>
      email.Some? && WellFormed(email.value) && AccountByEmail(accounts, email.value).Some? &&
      accounts[AccountByEmail(accounts, email.value).value].role != ADMIN &&
      Session.VerifyAuth(jwt, cookies, Session.Admin).flag
    // an admin account is never deleted, whoever asks
    ensures email.Some? && WellFormed(email.value) && AccountByEmail(accounts, email.value).Some? &&
            accounts[AccountByEmail(accounts, email.value).value].role == ADMIN ==>
      r == Some(Fail(400, ADMIN_TARGET))
  {
    if email.None? then Some(Fail(400, MISSING_ATTRIBUTES))
    else if email.value == "" then Some(Fail(400, EMPTY_TARGET))
    else if !IsEmail(email.value) then Some(Fail(400, BAD_TARGET))
    else match AccountByEmail(accounts, email.value)
      case None => Some(Fail(400, USER_NOT_FOUND))
      case Some(i) =>
        if accounts[i].role == ADMIN then Some(Fail(400, ADMIN_TARGET))
        else
          var d := Session.VerifyAuth(jwt, cookies, Session.Admin);
          if !d.flag then Some(Fail(401, d.cause)) else None
  }

  /**
   * deleteUser: after `DeletionRefusal` passes, the account goes, its membership is removed
   * by the group cascade, and its transactions are deleted; the reply is the number of
   * deleted transactions and whether a group was touched. Unlike the source, the account
   * deletion is carried out.
   */
  method DeleteUser(db: Db, jwt: Session.Jwt, cookies: Session.Cookies, email: Option<string>)
    returns (r: Reply<UserDeletion>)
    modifies db
    ensures db.categories == old(db.categories)
    ensures var refusal := DeletionRefusal(old(db.accounts), jwt, cookies, email);
      (refusal.Some? ==>
        r == refusal.value && db.accounts == old(db.accounts) && db.groups == old(db.groups) &&
        db.transactions == old(db.transactions)) &&
      (refusal.None? ==>
        var user := old(db.accounts)[AccountByEmail(old(db.accounts), email.value).value];
        var cascade := Cascade(old(db.groups), email.value);
        var dropped := DropUser(old(db.transactions), user.username);
        db.accounts == RemoveAccount(old(db.accounts), email.value) &&
        db.groups == cascade.0 && db.transactions == dropped.0 &&
        r == Done(UserDeletion(dropped.1, cascade.1)))
    ensures r.Done? && UniqueAccounts(old(db.accounts)) ==>
      UniqueAccounts(db.accounts) && !HasEmail(db.accounts, email.value)
    ensures Exclusive(old(db.groups)) && UniqueNames(old(db.groups)) ==>
      Exclusive(db.groups) && (r.Done? ==> !InSomeGroup(db.groups, email.value))
    ensures Populated(old(db.groups)) && NoRepeats(old(db.groups)) && UniqueNames(old(db.groups)) ==>
      Populated(db.groups)
  {
    var refusal := DeletionRefusal(db.accounts, jwt, cookies, email);
    if refusal.Some? {
      return refusal.value;
    }
    r := Expel(db, email.value);
  }

  /**
   * The store change of deleteUser once its checks pass: the account, its group membership
   * and its transactions go.
   */
  method Expel(db: Db, email: string) returns (r: Reply<UserDeletion>)
    requires AccountByEmail(db.accounts, email).Some?
    modifies db
    ensures db.categories == old(db.categories)
    ensures var user := old(db.accounts)[AccountByEmail(old(db.accounts), email).value];
      var cascade := Cascade(old(db.groups), email);
      var dropped := DropUser(old(db.transactions), user.username);
      db.accounts == RemoveAccount(old(db.accounts), email) &&
      db.groups == cascade.0 && db.transactions == dropped.0 &&
      r == Done(UserDeletion(dropped.1, cascade.1))
    ensures UniqueAccounts(old(db.accounts)) ==> UniqueAccounts(db.accounts) && !HasEmail(db.accounts, email)
    ensures Exclusive(old(db.groups)) && UniqueNames(old(db.groups)) ==>
      Exclusive(db.groups) && !InSomeGroup(db.groups, email)
    ensures Populated(old(db.groups)) && NoRepeats(old(db.groups)) && UniqueNames(old(db.groups)) ==>
      Populated(db.groups)
  {
    var user := db.accounts[AccountByEmail(db.accounts, email).value];
    if Exclusive(db.groups) && UniqueNames(db.groups) {
      CascadeLeavesNoMembership(db.groups, email);
    }
    if Populated(db.groups) && NoRepeats(db.groups) && UniqueNames(db.groups) {
      CascadeKeepsPopulated(db.groups, email);
    }
    db.accounts := RemoveAccount(db.accounts, email);
    var cascade := Cascade(db.groups, email);
    db.groups := cascade.0;
    var dropped := DropUser(db.transactions, user.username);
    db.transactions := dropped.0;
    return Done(UserDeletion(dropped.1, cascade.1));
  }

  /**
   * deleteGroup: the name non-empty and present, the group found, an admin caller; then the
   * first group with that name is deleted.
   */
  method DeleteGroup(db: Db, jwt: Session.Jwt, cookies: Session.Cookies, name: Option<string>)
    returns (r: Reply<string>)
    modifies db
    ensures db.accounts == old(db.accounts) && db.categories == old(db.categories) &&
            db.transactions == old(db.transactions)
    ensures name == Some("") ==> r == Fail(400, EMPTY_GROUP_NAME)
    ensures name.None? ==> r == Fail(400, MISSING_ATTRIBUTES)
    ensures Truthy(name) && GroupByName(old(db.groups), name.value).None? ==> r == Fail(400, GROUP_NOT_FOUND)
    ensures r.Done? <==>
      Truthy(name) && GroupByName(old(db.groups), name.value).Some? &&
      Session.VerifyAuth(jwt, cookies, Session.Admin).flag
    ensures r.Done? ==> r.data == GROUP_DELETED && db.groups == RemoveGroup(old(db.groups), name.value)
    ensures r.Fail? ==> db.groups == old(db.groups)
    ensures Exclusive(old(db.groups)) ==> Exclusive(db.groups)
    ensures UniqueNames(old(db.groups)) ==> UniqueNames(db.groups)
    ensures Populated(old(db.groups)) ==> Populated(db.groups)
    // with unique names, no group of that name is left
    ensures r.Done? && UniqueNames(old(db.groups)) ==> GroupByName(db.groups, name.value).None?
  {
    if name == Some("") {
      return Fail(400, EMPTY_GROUP_NAME);
    }
    if name.None? {
      return Fail(400, MISSING_ATTRIBUTES);
    }
    if GroupByName(db.groups, name.value).None? {
      return Fail(400, GROUP_NOT_FOUND);
    }
    var d := Session.VerifyAuth(jwt, cookies, Session.Admin);
    if !d.flag {
      return Fail(401, d.cause);
    }
    RemoveGroupKeeps(db.groups, name.value);
    if Exclusive(db.groups) {
      ExclusiveAfterDelete(db.groups, name.value);
    }
    db.groups := RemoveGroup(db.groups, name.value);
    return Done(GROUP_DELETED);
  }

  /**
   * deleteUser's store changes as the source writes them: the account deletion is built but
   * never run, being neither awaited nor executed, so the account stays; the cascade and the
   * transaction deletion do run.
   */
  function DeleteUserAsWritten(accounts: seq<Account>, groups: seq<Group>, txs: seq<Transaction>,
                               email: string): (r: (seq<Account>, seq<Group>, seq<Transaction>))
    requires AccountByEmail(accounts, email).Some?
    ensures r.0 == accounts
  {
    var user := accounts[AccountByEmail(accounts, email).value];
    (accounts, Cascade(groups, email).0, DropUser(txs, user.username).0)
  }

  /**
   * As written, a deleted user's account survives the deletion although its transactions and
   * its group membership are gone: the same email can still log in, owning nothing.
   */
  lemma DeletedAccountLingers(accounts: seq<Account>, groups: seq<Group>, txs: seq<Transaction>, email: string)
    requires AccountByEmail(accounts, email).Some?
    requires Exclusive(groups) && UniqueNames(groups)
    ensures var user := accounts[AccountByEmail(accounts, email).value];
      var after := DeleteUserAsWritten(accounts, groups, txs, email);
      HasEmail(after.0, email) && HasUsername(after.0, user.username) &&
      !InSomeGroup(after.1, email) && forall t :: t in after.2 ==> t.username != user.username
  {
    var i := AccountByEmail(accounts, email).value;
    CascadeLeavesNoMembership(groups, email);
    assert accounts[i].email == email;
  }

  /**
   * removeFromGroup's decision as the source writes it, once the group is found and the
   * candidates are well formed: a single-member group and an empty removal are refused,
   * anything else is pulled, even when nobody would remain.
   */
  function WithdrawAsWritten(accounts: seq<Account>, members: seq<Member>, emails: seq<string>)
    : (r: Option<seq<Member>>)
    ensures r.Some? ==> |members| != 1 && forall m :: m in r.value ==> m in members
  {
    if |members| == 1 then None
    else
      var s := SplitForRemove(accounts, members, emails);
      if |s.toRemove| == 0 then None else Some(RemoveMembers(members, s.toRemove))
  }

  /**
   * As written, listing every member of a group of two or more, all with accounts, empties
   * the group and the empty group is kept.
   */
  lemma UnguardedRemovalEmptiesGroup(accounts: seq<Account>, members: seq<Member>)
    requires |members| >= 2
    requires forall m :: m in members ==> HasEmail(accounts, m.email)
    ensures WithdrawAsWritten(accounts, members, Emails(members)) == Some([])
  {
    var emails := Emails(members);
    var s := SplitForRemove(accounts, members, emails);
    MemberEmails(members);
    forall m | m in members ensures m.email in s.toRemove {
      ListedMemberIsPulled(accounts, members, emails, m.email);
    }
    assert members[0] in members;
    PullAll(members, s.toRemove);
    assert WithdrawAsWritten(accounts, members, emails) == Some(RemoveMembers(members, s.toRemove));
  }

}
