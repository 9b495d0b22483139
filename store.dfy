/**
 * The record store shared by the four controllers: accounts, groups, categories and
 * transactions, the lookups the controllers run against them (each `findOne` returns the
 * first match in insertion order) and the store itself as one mutable object.
 */
module Store {

  datatype Option<T> = None | Some(value: T)

  /** A computed value, or the message of the Error a helper throws. */
  datatype Result<T> = Ok(value: T) | Err(msg: string)

  /** A controller's answer: status 200 with its data, or an error status with its message. */
  datatype Reply<T> = Done(data: T) | Fail(status: int, error: string)

  /** JavaScript truthiness of an optional string: present and not the empty string. */
  predicate Truthy(s: Option<string>)
  {
    s.Some? && s.value != ""
  }

  type Id = string

  const ADMIN := "Admin"
  const REGULAR := "Regular"

  /** A user account; `password` holds the hash, `refreshToken` the outstanding long-lived token. */
  datatype Account = Account(id: Id, username: string, email: string, password: string,
                             role: string, refreshToken: Option<string>)

  /** A group member: an email plus a non-owning reference to the account it denotes. */
  datatype Member = Member(email: string, user: Id)

  datatype Group = Group(name: string, members: seq<Member>)

  /** A category; `kind` is the category's `type` field. */
  datatype Category = Category(kind: string, color: string)

  /** A transaction; `category` is its `type` field, which refers to a category kind. */
  datatype Transaction = Transaction(id: Id, username: string, amount: real, category: string, date: string)

  /** Index of the first element satisfying `p`, as a `findOne` without sort returns it. */
  function FirstIndex<T>(s: seq<T>, p: T -> bool): (r: Option<nat>)
    ensures r.Some? ==> r.value < |s| && p(s[r.value]) && forall j :: 0 <= j < r.value ==> !p(s[j])
    ensures r.None? ==> forall j :: 0 <= j < |s| ==> !p(s[j])
    decreases |s|
  {
    if s == [] then None
    else if p(s[0]) then Some(0)
    else match FirstIndex(s[1..], p)
      case None => None
      case Some(k) => Some(k + 1)
  }

  function AccountByEmail(accounts: seq<Account>, email: string): Option<nat>
  {
    FirstIndex(accounts, (a: Account) => a.email == email)
  }

  function AccountByUsername(accounts: seq<Account>, username: string): Option<nat>
  {
    FirstIndex(accounts, (a: Account) => a.username == username)
  }

  function AccountByToken(accounts: seq<Account>, token: string): Option<nat>
  {
    FirstIndex(accounts, (a: Account) => a.refreshToken == Some(token))
  }

  predicate HasEmail(accounts: seq<Account>, email: string)
  {
    exists i :: 0 <= i < |accounts| && accounts[i].email == email
  }

  predicate HasUsername(accounts: seq<Account>, username: string)
  {
    exists i :: 0 <= i < |accounts| && accounts[i].username == username
  }

  lemma HasEmailIsFound(accounts: seq<Account>, email: string)
    ensures HasEmail(accounts, email) <==> AccountByEmail(accounts, email).Some?
  {
    if HasEmail(accounts, email) {
      var i :| 0 <= i < |accounts| && accounts[i].email == email;
    }
  }

  lemma HasUsernameIsFound(accounts: seq<Account>, username: string)
    ensures HasUsername(accounts, username) <==> AccountByUsername(accounts, username).Some?
  {
    if HasUsername(accounts, username) {
      var i :| 0 <= i < |accounts| && accounts[i].username == username;
    }
  }

  /** The member emails of a group, in order. */
  function Emails(members: seq<Member>): (r: seq<string>)
    ensures |r| == |members|
    ensures forall i :: 0 <= i < |members| ==> r[i] == members[i].email
  {
    if members == [] then [] else [members[0].email] + Emails(members[1..])
  }

  function GroupByName(groups: seq<Group>, name: string): Option<nat>
  {
    FirstIndex(groups, (g: Group) => g.name == name)
  }

  /** The group found by `Group.findOne({"members.email": email})`. */
  function GroupWithMember(groups: seq<Group>, email: string): Option<nat>
  {
    FirstIndex(groups, (g: Group) => email in Emails(g.members))
  }

  predicate InSomeGroup(groups: seq<Group>, email: string)
  {
    exists i :: 0 <= i < |groups| && email in Emails(groups[i].members)
  }

  predicate HasKind(categories: seq<Category>, kind: string)
  {
    exists i :: 0 <= i < |categories| && categories[i].kind == kind
  }

  function TransactionById(transactions: seq<Transaction>, id: Id): Option<nat>
  {
    FirstIndex(transactions, (t: Transaction) => t.id == id)
  }

  /** The length of the longest of `ids`. */
  function MaxLength(ids: seq<Id>): (m: nat)
    ensures forall i :: 0 <= i < |ids| ==> |ids[i]| <= m
  {
    if ids == [] then 0
    else
      var rest := MaxLength(ids[1..]);
      assert forall i :: 1 <= i < |ids| ==> ids[i] == ids[1..][i - 1];
      if |ids[0]| > rest then |ids[0]| else rest
  }

  /** An identifier that no record in `ids` carries; stands for the store's id generation. */
  function FreshId(ids: seq<Id>): (r: Id)
    ensures r != ""
    ensures forall i :: 0 <= i < |ids| ==> ids[i] != r
  {
    seq(MaxLength(ids) + 1, _ => 'x')
  }

  /** The ids of a list of records, in order. */
  function Ids<T>(records: seq<T>, id: T -> Id): (r: seq<Id>)
    ensures |r| == |records| && forall i :: 0 <= i < |records| ==> r[i] == id(records[i])
  {
    seq(|records|, i requires 0 <= i < |records| => id(records[i]))
  }

  /** Usernames and emails are each held by at most one account. */
  ghost predicate UniqueAccounts(accounts: seq<Account>)
  {
    forall i, j :: 0 <= i < j < |accounts| ==>
      accounts[i].username != accounts[j].username && accounts[i].email != accounts[j].email
  }

  /** Category kinds are unique. */
  ghost predicate UniqueKinds(categories: seq<Category>)
  {
    forall i, j :: 0 <= i < j < |categories| ==> categories[i].kind != categories[j].kind
  }

  /** Referential integrity: every transaction's category names an existing category. */
  ghost predicate Integrity(categories: seq<Category>, transactions: seq<Transaction>)
  {
    forall i :: 0 <= i < |transactions| ==> HasKind(categories, transactions[i].category)
  }

  /** The single persistent store every controller reads and updates. */
  class Db {
    /** Categories in creation order: the first is the oldest (`sort({_id: 1})`). */
    var categories: seq<Category>
    var transactions: seq<Transaction>
    var accounts: seq<Account>
    var groups: seq<Group>
  }
}
