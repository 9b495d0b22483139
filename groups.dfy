/**
 * The group side of the store used by users.js: the three-way partitions of candidate
 * emails for adding and for removing members, the member-list updates, the cascade run when
 * an account is deleted, and the invariant that no email belongs to two groups.
 */
module GroupStore {
  import opened Store

  /** No email is a member of two different groups. */
  ghost predicate Exclusive(groups: seq<Group>)
  {
    forall i, j, e ::
      (0 <= i < |groups| && 0 <= j < |groups| &&
       e in Emails(groups[i].members) && e in Emails(groups[j].members)) ==> i == j
  }

  /** Group names are unique. */
  ghost predicate UniqueNames(groups: seq<Group>)
  {
    forall i, j :: 0 <= i < j < |groups| ==> groups[i].name != groups[j].name
  }

  lemma {:induction false} EmailsAppend(a: seq<Member>, b: seq<Member>)
    ensures Emails(a + b) == Emails(a) + Emails(b)
  {
    var l, r := Emails(a + b), Emails(a) + Emails(b);
    assert |l| == |r|;
    forall i | 0 <= i < |l| ensures l[i] == r[i] {
      if i < |a| { assert (a + b)[i] == a[i]; } else { assert (a + b)[i] == b[i - |a|]; }
    }
  }

  lemma InSomeGroupIsFound(groups: seq<Group>, email: string)
    ensures InSomeGroup(groups, email) <==> GroupWithMember(groups, email).Some?
  {
    if InSomeGroup(groups, email) {
      var i :| 0 <= i < |groups| && email in Emails(groups[i].members);
    }
  }

  /**
   * The outcome of the addition partition: unknown emails, emails already in some group,
   * and the members to add, each the email and its account's id.
   */
  datatype AddSplit = AddSplit(notFound: seq<string>, already: seq<string>, toAdd: seq<Member>)

  /** A member fit to add: in no group, and naming the first account with its email. */
  predicate Eligible(accounts: seq<Account>, groups: seq<Group>, m: Member)
  {
    GroupWithMember(groups, m.email).None? && AccountByEmail(accounts, m.email).Some? &&
    accounts[AccountByEmail(accounts, m.email).value].id == m.user
  }

  /** The candidates classified one by one, in order: unknown account first, then membership elsewhere. */
  function SplitForAdd(accounts: seq<Account>, groups: seq<Group>, emails: seq<string>): (r: AddSplit)
    // one outcome per candidate
    ensures |r.notFound| + |r.already| + |r.toAdd| == |emails|
    decreases |emails|
  {
    if emails == [] then AddSplit([], [], [])
    else
      var init, e := emails[..|emails| - 1], emails[|emails| - 1];
      var s := SplitForAdd(accounts, groups, init);
      match AccountByEmail(accounts, e)
      case None => s.(notFound := s.notFound + [e])
      case Some(i) =>
        if GroupWithMember(groups, e).Some? then s.(already := s.already + [e])
        else s.(toAdd := s.toAdd + [Member(e, accounts[i].id)])
  }

  /** Filing one more candidate under one of three outcomes keeps the three a partition. */
  lemma PartitionStep(init: seq<string>, e: string, a: seq<string>, b: seq<string>, c: seq<string>,
                      a': seq<string>, b': seq<string>, c': seq<string>)
    requires multiset(init) == multiset(a) + multiset(b) + multiset(c)
    requires (a' == a + [e] && b' == b && c' == c) || (a' == a && b' == b + [e] && c' == c) ||
             (a' == a && b' == b && c' == c + [e])
    ensures multiset(init + [e]) == multiset(a') + multiset(b') + multiset(c')
  {
  }

  /** Every candidate lands in exactly one outcome of the addition partition. */
  lemma {:induction false} SplitForAddPartition(accounts: seq<Account>, groups: seq<Group>, emails: seq<string>)
    ensures var r := SplitForAdd(accounts, groups, emails);
      multiset(emails) == multiset(r.notFound) + multiset(r.already) + multiset(Emails(r.toAdd))
    decreases |emails|
  {
    if emails != [] {
      var init, e := emails[..|emails| - 1], emails[|emails| - 1];
      assert emails == init + [e];
      SplitForAddPartition(accounts, groups, init);
      SplitForAddSnoc(accounts, groups, init, e);
      var s, r := SplitForAdd(accounts, groups, init), SplitForAdd(accounts, groups, emails);
      PartitionStep(init, e, s.notFound, s.already, Emails(s.toAdd), r.notFound, r.already, Emails(r.toAdd));
    }
  }

  /** The last candidate is filed under exactly one outcome, after the others. */
  lemma SplitForAddSnoc(accounts: seq<Account>, groups: seq<Group>, init: seq<string>, e: string)
    ensures var s, r := SplitForAdd(accounts, groups, init), SplitForAdd(accounts, groups, init + [e]);
      (r.notFound == s.notFound + [e] && r.already == s.already && Emails(r.toAdd) == Emails(s.toAdd)) ||
      (r.notFound == s.notFound && r.already == s.already + [e] && Emails(r.toAdd) == Emails(s.toAdd)) ||
      (r.notFound == s.notFound && r.already == s.already && Emails(r.toAdd) == Emails(s.toAdd) + [e])
  {
    var emails := init + [e];
    assert emails[..|emails| - 1] == init;
    var s := SplitForAdd(accounts, groups, init);
    match AccountByEmail(accounts, e)
    case None =>
    case Some(i) =>
      EmailsAppend(s.toAdd, [Member(e, accounts[i].id)]);
  }

  /**
   * Each outcome of the addition partition is what its name says: no account has a
   * `notFound` email, an `already` email is held by an account and by some group, and a
   * member to add is eligible.
   */
  lemma {:induction false} SplitForAddOutcomes(accounts: seq<Account>, groups: seq<Group>, emails: seq<string>)
    ensures var r := SplitForAdd(accounts, groups, emails);
      (forall e :: e in r.notFound ==> !HasEmail(accounts, e)) &&
      (forall e :: e in r.already ==> HasEmail(accounts, e) && InSomeGroup(groups, e)) &&
      (forall m :: m in r.toAdd ==> Eligible(accounts, groups, m))
    decreases |emails|
  {
    if emails != [] {
      var init, e := emails[..|emails| - 1], emails[|emails| - 1];
      SplitForAddOutcomes(accounts, groups, init);
      HasEmailIsFound(accounts, e);
      InSomeGroupIsFound(groups, e);
    }
  }

  /**
   * A candidate with an account and no group is always among the members to add, since the
   * three outcomes partition the candidates.
   */
  lemma EligibleIsAdded(accounts: seq<Account>, groups: seq<Group>, emails: seq<string>, e: string)
    requires e in emails && HasEmail(accounts, e) && !InSomeGroup(groups, e)
    ensures e in Emails(SplitForAdd(accounts, groups, emails).toAdd)
  {
    var r := SplitForAdd(accounts, groups, emails);
    SplitForAddOutcomes(accounts, groups, emails);
    SplitForAddPartition(accounts, groups, emails);
    assert e in multiset(emails);
    assert e !in multiset(r.notFound) && e !in multiset(r.already);
  }

  /** No member chosen for addition is in any group yet. */
  lemma AddedAreUngrouped(accounts: seq<Account>, groups: seq<Group>, emails: seq<string>)
    ensures forall m :: m in SplitForAdd(accounts, groups, emails).toAdd ==> !InSomeGroup(groups, m.email)
  {
    SplitForAddOutcomes(accounts, groups, emails);
    forall m | m in SplitForAdd(accounts, groups, emails).toAdd ensures !InSomeGroup(groups, m.email) {
      InSomeGroupIsFound(groups, m.email);
    }
  }

  /** The outcome of the removal partition: unknown emails, emails not in this group, emails to remove. */
  datatype RemoveSplit = RemoveSplit(notFound: seq<string>, notInGroup: seq<string>, toRemove: seq<string>)

  function SplitForRemove(accounts: seq<Account>, members: seq<Member>, emails: seq<string>): (r: RemoveSplit)
    ensures multiset(emails) == multiset(r.notFound) + multiset(r.notInGroup) + multiset(r.toRemove)
    ensures forall e :: e in r.notFound ==> !HasEmail(accounts, e)
    ensures forall e :: e in r.notInGroup ==> HasEmail(accounts, e) && e !in Emails(members)
    ensures forall e :: e in r.toRemove ==> HasEmail(accounts, e) && e in Emails(members)
    decreases |emails|
  {
    if emails == [] then RemoveSplit([], [], [])
    else
      var init, e := emails[..|emails| - 1], emails[|emails| - 1];
      assert emails == init + [e];
      var s := SplitForRemove(accounts, members, init);
      HasEmailIsFound(accounts, e);
      if AccountByEmail(accounts, e).None? then s.(notFound := s.notFound + [e])
      else if e !in Emails(members) then s.(notInGroup := s.notInGroup + [e])
      else s.(toRemove := s.toRemove + [e])
  }

  /** A candidate with an account that is a member of the group is always among those to remove. */
  lemma ListedMemberIsPulled(accounts: seq<Account>, members: seq<Member>, emails: seq<string>, e: string)
    requires e in emails && HasEmail(accounts, e) && e in Emails(members)
    ensures e in SplitForRemove(accounts, members, emails).toRemove
  {
    var r := SplitForRemove(accounts, members, emails);
    assert e in multiset(emails);
    assert e !in multiset(r.notFound) && e !in multiset(r.notInGroup);
  }

  /** `$pull: {members: {email: {$in: emails}}}`: every member with a listed email goes. */
  function RemoveMembers(members: seq<Member>, emails: seq<string>): (r: seq<Member>)
    ensures forall m :: m in r <==> m in members && m.email !in emails
    ensures forall e :: e in Emails(r) <==> e in Emails(members) && e !in emails
    decreases |members|
  {
    if members == [] then []
    else
      var rest := RemoveMembers(members[1..], emails);
      var r := (if members[0].email in emails then [] else [members[0]]) + rest;
      assert forall m :: m in members <==> m == members[0] || m in members[1..];
      MemberEmails(members);
      MemberEmails(rest);
      MemberEmails(r);
      r
  }

  /** The pull works member by member, so it keeps the order of the members that remain. */
  lemma {:induction false} RemoveMembersAppend(a: seq<Member>, b: seq<Member>, emails: seq<string>)
    ensures RemoveMembers(a + b, emails) == RemoveMembers(a, emails) + RemoveMembers(b, emails)
    decreases |a|
  {
    if a == [] {
      assert a + b == b;
    } else {
      assert (a + b)[0] == a[0] && (a + b)[1..] == a[1..] + b;
      RemoveMembersAppend(a[1..], b, emails);
    }
  }

  /** The pull keeps every copy of each unlisted member and no copy of a listed one. */
  lemma {:induction false} RemoveMembersCounts(members: seq<Member>, emails: seq<string>)
    ensures forall m ::
              multiset(RemoveMembers(members, emails))[m] == if m.email in emails then 0 else multiset(members)[m]
    decreases |members|
  {
    if members != [] {
      RemoveMembersCounts(members[1..], emails);
      assert members == [members[0]] + members[1..];
      assert RemoveMembers(members, emails) ==
        (if members[0].email in emails then [] else [members[0]]) + RemoveMembers(members[1..], emails);
    }
  }

  /** Pulling every email of a member list leaves it empty. */
  lemma {:induction false} PullAll(members: seq<Member>, emails: seq<string>)
    requires forall m :: m in members ==> m.email in emails
    ensures RemoveMembers(members, emails) == []
    decreases |members|
  {
    if members != [] {
      assert members[0] in members;
      assert forall m :: m in members[1..] ==> m in members;
      PullAll(members[1..], emails);
    }
  }

  /** An email is in a member list exactly when some member carries it. */
  lemma MemberEmails(members: seq<Member>)
    ensures forall e :: e in Emails(members) <==> exists m :: m in members && m.email == e
  {
    forall e | e in Emails(members) ensures exists m :: m in members && m.email == e {
      var i :| 0 <= i < |members| && Emails(members)[i] == e;
      assert members[i] in members;
    }
    forall m | m in members ensures m.email in Emails(members) {
      var i :| 0 <= i < |members| && members[i] == m;
      assert Emails(members)[i] == m.email;
    }
  }

  /**
   * After the pull, no listed email that names an account is a member any more, and every
   * member whose email is not listed is still there.
   */
  lemma RemovalDropsListed(accounts: seq<Account>, members: seq<Member>, emails: seq<string>)
    ensures var rest := RemoveMembers(members, SplitForRemove(accounts, members, emails).toRemove);
      (forall e :: e in emails && HasEmail(accounts, e) ==> e !in Emails(rest)) &&
      (forall m :: m in members && m.email !in emails ==> m in rest)
  {
    var s := SplitForRemove(accounts, members, emails);
    forall e | e in emails && HasEmail(accounts, e)
      ensures e !in Emails(RemoveMembers(members, s.toRemove))
    {
      assert e in multiset(emails);
      assert e !in multiset(s.notFound);
    }
    forall m | m in members && m.email !in emails ensures m.email !in s.toRemove {
      assert m.email !in multiset(emails);
    }
  }

  /** `Group.deleteOne({name})`: the first group with that name goes. */
  function RemoveGroup(groups: seq<Group>, name: string): (r: seq<Group>)
    ensures GroupByName(groups, name).None? ==> r == groups
    ensures GroupByName(groups, name).Some? ==>
      var i := GroupByName(groups, name).value; r == groups[..i] + groups[i + 1..]
  {
    match GroupByName(groups, name)
    case None => groups
    case Some(i) => groups[..i] + groups[i + 1..]
  }

  /** `Group.updateOne({name}, {$pull: {members: {email}}})` on the first group with that name. */
  function PullMember(groups: seq<Group>, name: string, email: string): (r: seq<Group>)
    ensures |r| == |groups|
    ensures GroupByName(groups, name).None? ==> r == groups
    ensures GroupByName(groups, name).Some? ==>
      var i := GroupByName(groups, name).value;
      r == groups[i := Group(groups[i].name, RemoveMembers(groups[i].members, [email]))]
  {
    match GroupByName(groups, name)
    case None => groups
    case Some(i) => groups[i := Group(groups[i].name, RemoveMembers(groups[i].members, [email]))]
  }

  /**
   * The group cascade of deleting an account: the first group holding the email is deleted
   * when it has a single member, and otherwise loses that member; the flag says whether
   * such a group existed.
   */
  function Cascade(groups: seq<Group>, email: string): (r: (seq<Group>, bool))
    ensures r.1 <==> InSomeGroup(groups, email)
    ensures !r.1 ==> r.0 == groups
    // with unique names, the holding group alone changes: deleted when the email is its only
    // member, otherwise left with every member of another email
    ensures UniqueNames(groups) && GroupWithMember(groups, email).Some? ==>
      var i := GroupWithMember(groups, email).value;
      (|groups[i].members| == 1 ==> r.0 == groups[..i] + groups[i + 1..]) &&
      (|groups[i].members| != 1 ==>
        r.0 == groups[i := Group(groups[i].name, RemoveMembers(groups[i].members, [email]))])
  {
    InSomeGroupIsFound(groups, email);
    match GroupWithMember(groups, email)
    case None => (groups, false)
    case Some(i) =>
      NameFindsIndex(groups, i);
      if |groups[i].members| == 1 then (RemoveGroup(groups, groups[i].name), true)
      else (PullMember(groups, groups[i].name, email), true)
  }

  /** With unique names, looking a group up by its own name finds that group. */
  lemma NameFindsIndex(groups: seq<Group>, i: nat)
    requires i < |groups|
    ensures UniqueNames(groups) ==> GroupByName(groups, groups[i].name) == Some(i)
  {
    if UniqueNames(groups) {
      var k := GroupByName(groups, groups[i].name);
      assert k.Some? && k.value <= i && groups[k.value].name == groups[i].name;
    }
  }

  /** `deleteMany({username})` on the transactions: those of other users, and how many went. */
  function DropUser(txs: seq<Transaction>, username: string): (r: (seq<Transaction>, nat))
    ensures forall t :: t in r.0 <==> t in txs && t.username != username
    ensures r.1 == |txs| - |r.0|
    decreases |txs|
  {
    if txs == [] then ([], 0)
    else
      var rest := DropUser(txs[1..], username);
      assert forall t :: t in txs <==> t == txs[0] || t in txs[1..];
      if txs[0].username == username then (rest.0, rest.1 + 1) else ([txs[0]] + rest.0, rest.1)
  }

  /**
   * `deleteMany` keeps every copy of another user's transaction and none of this user's, so the
   * reported count is exactly the number of this user's transactions.
   */
  lemma {:induction false} DropUserCounts(txs: seq<Transaction>, username: string)
    ensures forall t ::
              multiset(DropUser(txs, username).0)[t] == if t.username == username then 0 else multiset(txs)[t]
    ensures DropUser(txs, username).1 == |txs| - |DropUser(txs, username).0|
    decreases |txs|
  {
    if txs != [] {
      DropUserCounts(txs[1..], username);
      assert txs == [txs[0]] + txs[1..];
      var rest := DropUser(txs[1..], username);
      assert DropUser(txs, username).0 == (if txs[0].username == username then [] else [txs[0]]) + rest.0;
    }
  }

  /** `deleteMany` keeps the other users' transactions in their stored order. */
  lemma {:induction false} DropUserAppend(a: seq<Transaction>, b: seq<Transaction>, username: string)
    ensures DropUser(a + b, username).0 == DropUser(a, username).0 + DropUser(b, username).0
    decreases |a|
  {
    if a == [] {
      assert a + b == b;
    } else {
      assert (a + b)[0] == a[0] && (a + b)[1..] == a[1..] + b;
      DropUserAppend(a[1..], b, username);
    }
  }

  /** `User.deleteOne({email})`: the first account with that email goes. */
  function RemoveAccount(accounts: seq<Account>, email: string): (r: seq<Account>)
    // exactly the first account with that email goes, and the others keep their order
    ensures AccountByEmail(accounts, email).None? ==> r == accounts
    ensures AccountByEmail(accounts, email).Some? ==>
      var i := AccountByEmail(accounts, email).value; r == accounts[..i] + accounts[i + 1..]
    ensures forall a :: a in r ==> a in accounts
    ensures UniqueAccounts(accounts) ==> UniqueAccounts(r) && !HasEmail(r, email)
  {
    match AccountByEmail(accounts, email)
    case None => accounts
    case Some(i) =>
      RemoveAtKeepsUnique(accounts, i);
      accounts[..i] + accounts[i + 1..]
  }

  /** Dropping one account from a uniquely keyed list keeps it unique and loses that email. */
  lemma RemoveAtKeepsUnique(accounts: seq<Account>, i: nat)
    requires i < |accounts|
    ensures var r := accounts[..i] + accounts[i + 1..];
      (forall a :: a in r ==> a in accounts) &&
      (UniqueAccounts(accounts) ==> UniqueAccounts(r) && !HasEmail(r, accounts[i].email))
  {
    var r := accounts[..i] + accounts[i + 1..];
    assert forall k :: 0 <= k < |r| ==> r[k] == if k < i then accounts[k] else accounts[k + 1];
    if UniqueAccounts(accounts) {
      forall k | 0 <= k < |r|
        ensures r[k].email != accounts[i].email
      {
        if k < i { assert r[k] == accounts[k]; } else { assert r[k] == accounts[k + 1]; }
      }
    }
  }

  /** A new group whose members are in no group keeps memberships exclusive. */
  lemma ExclusiveAfterCreate(groups: seq<Group>, g: Group)
    requires Exclusive(groups)
    requires forall m :: m in g.members ==> !InSomeGroup(groups, m.email)
    ensures Exclusive(groups + [g])
  {
    var gs := groups + [g];
    MemberEmails(g.members);
    forall i, j, e | 0 <= i < |gs| && 0 <= j < |gs| && e in Emails(gs[i].members) && e in Emails(gs[j].members)
      ensures i == j
    {
      assert i < |groups| ==> gs[i] == groups[i];
      assert j < |groups| ==> gs[j] == groups[j];
    }
  }

  /** Appending members that are in no group keeps memberships exclusive. */
  lemma ExclusiveAfterAdd(groups: seq<Group>, k: nat, extra: seq<Member>)
    requires k < |groups| && Exclusive(groups)
    requires forall m :: m in extra ==> !InSomeGroup(groups, m.email)
    ensures Exclusive(groups[k := Group(groups[k].name, groups[k].members + extra)])
  {
    var gs := groups[k := Group(groups[k].name, groups[k].members + extra)];
    EmailsAppend(groups[k].members, extra);
    MemberEmails(extra);
    forall i, j, e | 0 <= i < |gs| && 0 <= j < |gs| && e in Emails(gs[i].members) && e in Emails(gs[j].members)
      ensures i == j
    {
      assert i != k ==> gs[i] == groups[i];
      assert j != k ==> gs[j] == groups[j];
      assert e in Emails(extra) ==> !InSomeGroup(groups, e);
      assert e !in Emails(extra) ==> e in Emails(groups[i].members) && e in Emails(groups[j].members);
    }
  }

  /** Removing members from one group keeps memberships exclusive. */
  lemma ExclusiveAfterRemove(groups: seq<Group>, k: nat, emails: seq<string>)
    requires k < |groups|
    ensures Exclusive(groups) ==>
      Exclusive(groups[k := Group(groups[k].name, RemoveMembers(groups[k].members, emails))])
  {
    if !Exclusive(groups) { return; }
    var gs := groups[k := Group(groups[k].name, RemoveMembers(groups[k].members, emails))];
    forall i, j, e | 0 <= i < |gs| && 0 <= j < |gs| && e in Emails(gs[i].members) && e in Emails(gs[j].members)
      ensures i == j
    {
      assert e in Emails(groups[i].members) && e in Emails(groups[j].members);
    }
  }

  /** Deleting one group keeps memberships exclusive. */
  lemma ExclusiveAfterDelete(groups: seq<Group>, name: string)
    requires Exclusive(groups)
    ensures Exclusive(RemoveGroup(groups, name))
  {
    var gs := RemoveGroup(groups, name);
    if GroupByName(groups, name).Some? {
      var k := GroupByName(groups, name).value;
      forall i, j, e | 0 <= i < |gs| && 0 <= j < |gs| && e in Emails(gs[i].members) && e in Emails(gs[j].members)
        ensures i == j
      {
        var i', j' := if i < k then i else i + 1, if j < k then j else j + 1;
        assert gs[i] == groups[i'] && gs[j] == groups[j'];
      }
    }
  }

  /**
   * With exclusive memberships and unique names, the cascade takes the email out of every
   * group and keeps memberships exclusive.
   */
  lemma CascadeLeavesNoMembership(groups: seq<Group>, email: string)
    requires Exclusive(groups) && UniqueNames(groups)
    ensures Exclusive(Cascade(groups, email).0)
    ensures !InSomeGroup(Cascade(groups, email).0, email)
  {
    InSomeGroupIsFound(groups, email);
    var r := Cascade(groups, email).0;
    match GroupWithMember(groups, email)
    case None =>
    case Some(i) =>
      var name := groups[i].name;
      assert GroupByName(groups, name) == Some(i) by {
        var k := GroupByName(groups, name);
        assert k.Some? && groups[k.value].name == name;
      }
      if |groups[i].members| == 1 {
        ExclusiveAfterDelete(groups, name);
        assert r == groups[..i] + groups[i + 1..];
        forall j | 0 <= j < |r| ensures email !in Emails(r[j].members) {
          var j' := if j < i then j else j + 1;
          assert r[j] == groups[j'] && j' != i;
        }
      } else {
        ExclusiveAfterRemove(groups, i, [email]);
        forall j | 0 <= j < |r| ensures email !in Emails(r[j].members) {
          if j != i { assert r[j] == groups[j]; }
        }
      }
  }

  /** Every group has at least one member. */
  ghost predicate Populated(groups: seq<Group>)
  {
    forall i :: 0 <= i < |groups| ==> |groups[i].members| > 0
  }

  /** No group lists the same email twice. */
  ghost predicate NoRepeats(groups: seq<Group>)
  {
    forall i, a, b :: 0 <= i < |groups| && 0 <= a < b < |groups[i].members| ==>
      groups[i].members[a].email != groups[i].members[b].email
  }

  /** Deleting a group keeps names unique and groups populated, and with unique names the name is gone. */
  lemma RemoveGroupKeeps(groups: seq<Group>, name: string)
    ensures UniqueNames(groups) ==> UniqueNames(RemoveGroup(groups, name)) &&
                                    GroupByName(RemoveGroup(groups, name), name).None?
    ensures Populated(groups) ==> Populated(RemoveGroup(groups, name))
    ensures NoRepeats(groups) ==> NoRepeats(RemoveGroup(groups, name))
    ensures forall g :: g in RemoveGroup(groups, name) ==> g in groups
  {
    var r := RemoveGroup(groups, name);
    if GroupByName(groups, name).Some? {
      var k := GroupByName(groups, name).value;
      assert forall i :: 0 <= i < |r| ==> r[i] == groups[if i < k then i else i + 1];
      if UniqueNames(groups) {
        forall i | 0 <= i < |r| ensures r[i].name != name {
          assert i < k ==> r[i] == groups[i];
          assert i >= k ==> r[i] == groups[i + 1];
        }
      }
    }
  }

  /** Pulling one email from a group of two or more distinct emails leaves a member. */
  lemma PullKeepsMember(members: seq<Member>, email: string)
    requires |members| >= 2 && members[0].email != members[1].email
    ensures |RemoveMembers(members, [email])| > 0
  {
    var m := if members[0].email != email then members[0] else members[1];
    assert m in members && m.email !in [email];
  }

  /**
   * The cascade keeps every group populated when no group lists an email twice: a sole
   * member's group is deleted, and any other group keeps a member with a different email.
   */
  lemma CascadeKeepsPopulated(groups: seq<Group>, email: string)
    requires Populated(groups) && NoRepeats(groups) && UniqueNames(groups)
    ensures Populated(Cascade(groups, email).0)
  {
    match GroupWithMember(groups, email)
    case None =>
    case Some(i) =>
      var name := groups[i].name;
      assert GroupByName(groups, name) == Some(i) by {
        var k := GroupByName(groups, name);
        assert k.Some? && groups[k.value].name == name;
      }
      if |groups[i].members| == 1 {
        RemoveGroupKeeps(groups, name);
      } else {
        PullKeepsMember(groups[i].members, email);
      }
  }

  /** Appending a populated group with a new name keeps names unique and groups populated. */
  lemma AppendGroupKeeps(groups: seq<Group>, g: Group)
    requires GroupByName(groups, g.name).None?
    ensures UniqueNames(groups) ==> UniqueNames(groups + [g])
    ensures Populated(groups) && g.members != [] ==> Populated(groups + [g])
  {
    assert forall i :: 0 <= i < |groups| ==> groups[i].name != g.name;
  }

  /** Replacing one group's member list keeps names unique, and groups populated when the list is not empty. */
  lemma ReplaceMembersKeeps(groups: seq<Group>, k: nat, members: seq<Member>)
    requires k < |groups|
    ensures var gs := groups[k := Group(groups[k].name, members)];
      (UniqueNames(groups) ==> UniqueNames(gs)) &&
      (Populated(groups) && members != [] ==> Populated(gs))
  {
  }
}
