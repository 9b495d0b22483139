# Access control and referential integrity of a shared expense store

This project models the back-end core of an expense-tracking web service. Accounts own
transactions. Each transaction names a category by its type. Accounts band together in groups.
Every mutating endpoint first asks whether the caller may act, and then whether the mutation
keeps intact the invariants other records rely on:

- no transaction names a missing category;
- no email belongs to two groups;
- usernames, emails and category types are unique;
- a group keeps at least one member.

The model covers these parts:

- **Session** is the session check `verifyAuth`. An access-token / refresh-token cookie pair is
  decoded, checked for complete and matching identity claims, and tested against the requested
  capability: `Simple`, `User`, `Admin` or `Group`. An expired access token is re-minted from the
  refresh token.
- **Filters** holds the date and amount query-filter builders and the way the per-user
  transaction listing combines them.
- **EmailFormat** is the email regular expression, stated as the structure it accepts.
- **Store** holds the records, the first-match lookups the controllers run (`findOne` without a
  sort returns the first record in insertion order), and the store itself: one object whose
  collections the endpoints update in place.
- **CategoryStore** and **Controller** cover category creation, renaming and deletion-with-merge,
  plus transaction creation and deletion. **TransactionStore** holds the deletion-by-id functions
  these endpoints use.
- **GroupStore** and **Users** cover group creation, adding and removing members, account deletion
  with its group and transaction cascade, and group deletion.
- **Auth** covers registration, login (which mints the token pair) and logout.

Every endpoint takes the same shape. A pure `…Refusal` function holds the source's chain of
checks, in the source's order, with the status and message each check sends. A method on the
store then performs the update. The method's contract ties the new store to reference functions
of the old one, and lemmas prove what the source promises about those functions.

The store's helpers are parameters:

- `jwt.sign` / `jwt.verify` are the functions of `Session.Jwt`;
- `bcrypt.hash` / `compare` are the functions of `Auth.Crypto`;
- `Date.parse` / `isNaN` are the predicates of `Filters.Parsers`;
- `parseFloat` is a parameter of `Controller.CreateTransaction`;
- the clock is the `now` parameter;
- id generation is `Store.FreshId`.

An absent request field is `None`. The empty string is `Some("")`, so JavaScript falsiness is
`Store.Truthy`.

The model follows the code wherever its behaviour is narrower than its own doc comments or
the invariants above suggest:

- **Category deletion with a bad type.** The loop does not skip an empty or missing type. It
  stops at the first one with a 400, and the types deleted before it stay deleted
  (`CategoryStore.DeleteSweep`).
- **Group creation.** The doc comment of createGroup (code/controllers/users.js:86) names only the
  case where every candidate is missing or already grouped. The code also fails when the caller
  is the only eligible member (`Users.CreateGroup`).
- **The request in the response's place.** createTransaction and deleteTransaction hand the
  request object to the User check (code/controllers/controller.js:392, 860). Where that check
  would renew an expired access token, writing the cookie throws, and the check refuses with
  "TypeError" (`Session.VerifyAuthOnRequest`). A non-admin caller whose access token has
  expired is therefore refused by both endpoints.
- **Three places where the code breaks the invariants above.** These are listed under
  Findings, each modelled both as written and corrected.

## Model

| member | source | states |
|---|---|---|
| Session.VerifyAuth | code/controllers/utils.js:112-370 | These cookie pairs are refused as not logged in: a missing or empty cookie. A grant always rests on a refresh token that verifies and whose claims meet the capability. With both tokens valid, the grant holds exactly when both claim sets are complete and name the same user and the capability holds; the causes are "Token is missing information" and "Mismatched users". An expired access token is decided by the refresh claims alone and re-signed for 1h. An expired refresh token gives "Perform login again". Any other decoding error is reported by name |
| Session.RenewedTokenAccepted | code/controllers/utils.js:150-165 | The renewed access token, sent back with the same refresh token, is accepted without another renewal |
| Session.VerifyAuthOnRequest | code/controllers/utils.js:208-239 | With the request passed as the response, a check that would renew the access token refuses instead, with "TypeError", and nothing is renewed. Every other decision is the usual one. So a grant needs two tokens that both verify |
| Session.MismatchDetected | code/controllers/utils.js:144-145 | Two complete tokens whose emails differ are refused as "Mismatched users", whatever the capability |
| Filters.DateFilter | code/controllers/utils.js:12-85 | `date` together with `from` or `upTo` is an error. An unparsable date is an error. `date` covers its whole day. `from` starts at the beginning of its day and `upTo` ends at the end of its day. No parameter gives the empty filter |
| Filters.AmountFilter | code/controllers/utils.js:379-416 | A non-numeric `min` or `max` is an error, `min` first. A success has a lower bound exactly when `min` is present and an upper bound exactly when `max` is present |
| Filters.CombineFilters | code/controllers/controller.js:538-547 | A builder runs only when one of its parameters is present. The amount builder's error comes first. The filter always carries the username |
| Controller.UserTransactionsFilter | code/controllers/controller.js:502-547 | The filter is answered exactly when the user exists, the caller passes the route's check (Admin on the admin route, User on the user route) and the query combines. A known user whose caller fails the check gets a 401. A 400 for a known user carries the combined filter's error |
| EmailFormat.DomainHasNoAt | code/controllers/users.js:133 | An accepted domain contains no `@` |
| EmailFormat.DomainEndsAlnum | code/controllers/users.js:133 | An accepted domain ends on a letter or digit |
| EmailFormat.EmailShape | code/controllers/users.js:133 | An accepted address has exactly one `@`, a non-empty local part before it, and ends on a letter or digit |
| EmailFormat.EmailSplit | code/controllers/users.js:133 | An address is accepted exactly when its local part and its domain are |
| EmailFormat.DomainCons | code/controllers/users.js:133 | A domain is one label, a dot, then a domain, read or built |
| CategoryStore.RemoveKind | code/controllers/controller.js:261 | Deleting a type keeps every other type and shortens the list by one. With unique types, the deleted type is gone and the others stay unique |
| CategoryStore.RemoveKindFirst | code/controllers/controller.js:261 | Deleting a type removes exactly the first category of that type, and the others stay in order. Nothing changes when no category has that type |
| CategoryStore.PastHead | code/controllers/controller.js:261 | Past a first category of another type, both the lookup and the deletion continue in the rest of the list |
| CategoryStore.Rename | code/controllers/controller.js:135-139 | Only the first category of the old type changes, and it becomes the new type with the new colour. Every other entry stays. Nothing changes when no category has the old type. The new type exists afterwards. Uniqueness is kept when the new type was unused |
| CategoryStore.RenameAtKinds | code/controllers/controller.js:135-139 | Overwriting one category keeps every type other than the old and the new one. With unique types and an unused new type, uniqueness is kept and the old type is gone |
| CategoryStore.Retype | code/controllers/controller.js:141-145 | Retyping keeps the length, and moves every transaction of the old type, and only those, to the new type |
| CategoryStore.Without | code/controllers/controller.js:204-207 | Taking the oldest type out of the list keeps exactly the other listed types, each as often as it was listed |
| CategoryStore.WithoutAppend | code/controllers/controller.js:204-207 | The filter keeps the list's order: filtering two lists joined is filtering each and joining the results |
| CategoryStore.WithoutDistinct | code/controllers/controller.js:204-207 | Taking a type out of a list without repeats leaves a list without repeats |
| CategoryStore.PlanDeletion | code/controllers/controller.js:200-215 | The fallback is the oldest category outside the processed list. Every processed type was listed. Every listed type is processed, except the oldest when the list is as long as the store, in which case the oldest is the fallback |
| CategoryStore.OldestOutside | code/controllers/controller.js:213 | The first category whose type is not listed, and `None` exactly when every category is listed |
| CategoryStore.SweepRetypes | code/controllers/controller.js:244-281 | A completed sweep retypes exactly the listed types' transactions to the fallback, leaves all others untouched, and counts exactly the retyped ones |
| CategoryStore.SweepKeepsIntegrity | code/controllers/controller.js:244-281 | Whether the sweep completes or stops at a bad type, every transaction still names an existing category, and the fallback survives |
| CategoryStore.StepKeepsIntegrity | code/controllers/controller.js:261-267 | One iteration, deleting a type and moving its transactions to another existing type, keeps every transaction on an existing category and keeps the fallback |
| CategoryStore.CountAfterRetype | code/controllers/controller.js:264-270 | The count of one iteration plus the count of the rest of the sweep is the count over the whole list |
| CategoryStore.SweepRemovesListed | code/controllers/controller.js:254-261 | With unique types, a completed sweep leaves exactly the types that existed and were not listed |
| CategoryStore.SweepCompletes | code/controllers/controller.js:247-258 | When every listed type is non-empty, exists and is listed once, the sweep completes |
| CategoryStore.DeleteAllKeepsOldest | code/controllers/controller.js:202-207 | Listing every category deletes all but the oldest. Every transaction ends in the oldest, the oldest's own transactions are unchanged, and the count is the number of moved transactions |
| CategoryStore.RenameKeepsIntegrity | code/controllers/controller.js:135-145 | Renaming a category and retyping its transactions keeps every transaction on an existing category |
| CategoryStore.RetypeMovesCount | code/controllers/controller.js:141-145 | Retyping moves every transaction of the old type to the new one, and the old type has none left |
| CategoryStore.RenameCount | code/controllers/controller.js:141-148 | When the new type was unused, the new type's count after the update is the number the update reports, and the old type has none left |
| CategoryStore.MissingKindHasNoTransactions | code/controllers/controller.js:126-133 | Under referential integrity, a type with no category has no transactions |
| CategoryStore.NullFallbackDangles | code/controllers/controller.js:213-268 | As written: deleting types A, B, C from a store of categories A and B leaves no fallback. Category A is deleted, then the request fails, and a transaction is left naming a missing category |
| Controller.CreateCategory | code/controllers/controller.js:20-69 | A failed Admin check is a 401. Missing and empty attributes are 400s. Creation succeeds exactly when the caller is an admin, both attributes are non-empty and the type is new. Success appends the category and changes nothing else. Types stay unique and every transaction keeps an existing category |
| Controller.UpdateCategory | code/controllers/controller.js:85-159 | A new type that already exists is refused, even one equal to the old type, and so is a missing old type. Success renames the category, retypes its transactions, reports how many moved, and keeps uniqueness and integrity |
| Controller.DeletionRefusal | code/controllers/controller.js:170-215 | Deletion passes exactly when all of these hold: the caller is an admin; the list is present and non-empty; the store holds at least two categories; and (corrected) some category would be left as fallback. A failed Admin check is the only 401. A store with a single category is always refused |
| Controller.DeleteCategory | code/controllers/controller.js:170-290 | A refusal changes nothing. Otherwise the store becomes the sweep of the planned types onto the fallback, with the sweep's count or its error, and referential integrity is kept |
| Controller.RunSweep | code/controllers/controller.js:244-281 | The deletion loop leaves exactly the sweep's categories and transactions and replies with its count or its first error |
| Controller.TransactionRefusal | code/controllers/controller.js:338-420 | Creation passes exactly when all of these hold: the route's user exists; all fields are present and non-empty; the category exists; the body's user is the route's user; the caller passes the Admin check, or the User check run on the request; the refresh token's holder is the route's user; and the amount parses. A non-admin whose access token has expired gets 401 "TypeError". A 401 implies the caller is not an admin or does not hold the route user's refresh token |
| Controller.CreateTransaction | code/controllers/controller.js:338-445 | A refusal changes nothing, including the renewal-path refusal of a non-admin. Success appends one transaction with a fresh id, the route's username, the parsed amount and the given type. It keeps referential integrity and unique ids |
| Controller.RemovalRefusal | code/controllers/controller.js:832-875 | Deletion passes exactly when the user exists, the id is given and found, and the caller is an admin, or passes the User check run on the request and owns the transaction. A non-admin whose access token has expired gets 401 "User not authenticated" |
| Controller.DeleteTransaction | code/controllers/controller.js:832-895 | Success removes the first transaction with that id. A refusal changes nothing, including the renewal-path refusal of a non-admin. Integrity is kept |
| Controller.CheckIds | code/controllers/controller.js:913-925 | The validation loop passes exactly when every id is non-empty and present. Otherwise it reports the first bad id's error |
| Controller.DeleteTransactions | code/controllers/controller.js:899-945 | A failed Admin check is a 401 and a missing list is a 400. Either every id is valid and they are all deleted, or nothing is deleted |
| TransactionStore.RemoveId | code/controllers/controller.js:877 | Deleting by id removes one transaction when the id is found and nothing otherwise |
| TransactionStore.RemoveIds | code/controllers/controller.js:927-930 | Deleting ids one by one leaves only transactions that were there |
| TransactionStore.Drop | code/controllers/controller.js:927-930 | The reference result of deleting a list of ids: exactly the transactions whose id is not listed |
| TransactionStore.RemoveIdIsDrop | code/controllers/controller.js:877 | With unique ids, deleting one id is the reference result for that one id |
| TransactionStore.DropNothing | code/controllers/controller.js:927-930 | Deleting ids that name no transaction changes nothing |
| TransactionStore.DropTwice | code/controllers/controller.js:927-930 | Deleting one list of ids and then another equals deleting both lists at once |
| TransactionStore.RemoveIdsIsDrop | code/controllers/controller.js:927-930 | With unique ids, deleting the listed ids one by one equals the reference result, repeats included |
| TransactionStore.DropKeepsUnique | code/controllers/controller.js:927-930 | Deleting by id keeps transaction ids unique |
| TransactionStore.AppendFreshKeepsUnique | code/controllers/controller.js:430-432 | Appending a transaction with a fresh id keeps ids unique |
| GroupStore.SplitForAdd | code/controllers/users.js:157-176 | Each candidate is filed under exactly one outcome, so the three lists together are as long as the candidate list |
| GroupStore.SplitForAddPartition | code/controllers/users.js:157-176 | Every candidate lands in exactly one outcome: not found, already in a group, or to add (as a multiset equality) |
| GroupStore.SplitForAddSnoc | code/controllers/users.js:158-175 | The last candidate goes after the earlier ones in exactly one outcome, and the other two outcomes are unchanged |
| GroupStore.AppendGroupKeeps | code/controllers/users.js:185-188 | Appending a group whose name is new keeps group names unique. When its member list is non-empty, every group stays populated |
| GroupStore.SplitForAddOutcomes | code/controllers/users.js:157-176 | Not-found emails have no account. Already-grouped emails have an account and a group. Every member to add is in no group and carries its account's id |
| GroupStore.EligibleIsAdded | code/controllers/users.js:158-175 | A candidate with an account and no group is always added |
| GroupStore.AddedAreUngrouped | code/controllers/users.js:381-396 | No member chosen for addition is in any group yet |
| GroupStore.SplitForRemove | code/controllers/users.js:523-548 | Every candidate lands in exactly one outcome. Not-found emails have no account. Not-in-group emails have an account but no membership here. Emails to remove have an account and are members |
| GroupStore.ListedMemberIsPulled | code/controllers/users.js:523-548 | A listed member with an account is always among those to remove |
| GroupStore.RemoveMembers | code/controllers/users.js:557-560 | The pull keeps exactly the members whose email is not listed; the emails left are the old ones minus the listed ones |
| GroupStore.RemoveMembersCounts | code/controllers/users.js:557-560 | The pull keeps every copy of each unlisted member and no copy of a listed one |
| GroupStore.RemoveMembersAppend | code/controllers/users.js:557-560 | The pull works member by member over a concatenation, so the remaining members keep their order |
| GroupStore.PullAll | code/controllers/users.js:557-560 | Pulling a list that names every member leaves no member |
| GroupStore.RemovalDropsListed | code/controllers/users.js:523-560 | After a removal, no listed email with an account is a member, and every unlisted member remains |
| GroupStore.PullMember | code/controllers/users.js:667 | Pulling one email from the first group of that name changes only that group's members, and nothing when no group has that name |
| GroupStore.Cascade | code/controllers/users.js:654-671 | The group flag is true exactly when some group held the email, and otherwise the groups are unchanged. With unique names, only the first group holding the email changes. If the email is its only member, that group is deleted and the others stay in order. Otherwise it keeps exactly its members with other emails |
| GroupStore.NameFindsIndex | code/controllers/users.js:662-667 | With unique names, looking a group up by its own name finds that very group |
| GroupStore.CascadeLeavesNoMembership | code/controllers/users.js:654-671 | With exclusive membership and unique names, the cascade leaves the email in no group and keeps membership exclusive |
| GroupStore.PullKeepsMember | code/controllers/users.js:664-668 | A group of two or more whose first two emails differ keeps a member after one email is pulled |
| GroupStore.CascadeKeepsPopulated | code/controllers/users.js:659-668 | With populated groups, unique names and no email listed twice in a group, every group stays populated after the cascade |
| GroupStore.DropUser | code/controllers/users.js:674 | Deleting by username keeps exactly the other users' transactions; the count is the number of entries that went |
| GroupStore.DropUserCounts | code/controllers/users.js:674-680 | Every copy of another user's transaction stays and none of this user's, so the reported count is exactly the number of this user's transactions |
| GroupStore.DropUserAppend | code/controllers/users.js:674 | Deleting by username over a concatenation keeps the other users' transactions in their stored order |
| GroupStore.RemoveAccount | code/controllers/users.js:651 | Deleting an account by email removes exactly the first account with that email, and the others stay in order. Nothing changes when no account has it. With unique accounts, uniqueness is kept and the email is gone |
| GroupStore.RemoveAtKeepsUnique | code/controllers/users.js:651 | Dropping one account adds none. With unique accounts, the rest stay unique and no longer hold the dropped account's email |
| GroupStore.RemoveGroup | code/controllers/users.js:729 | Deleting a group by name removes the first group with that name, and nothing when there is none |
| GroupStore.RemoveGroupKeeps | code/controllers/users.js:729 | Deleting a group keeps names unique and groups populated. With unique names, no group of that name is left |
| GroupStore.ReplaceMembersKeeps | code/controllers/users.js:406-411 | Replacing one group's members keeps names unique, and keeps every group populated when the new list is not empty |
| GroupStore.ExclusiveAfterCreate | code/controllers/users.js:185-188 | A new group of ungrouped members keeps every email in at most one group |
| GroupStore.ExclusiveAfterAdd | code/controllers/users.js:406-411 | Appending ungrouped members keeps every email in at most one group |
| GroupStore.ExclusiveAfterRemove | code/controllers/users.js:557-560 | Pulling members keeps every email in at most one group |
| GroupStore.ExclusiveAfterDelete | code/controllers/users.js:729 | Deleting a group keeps every email in at most one group |
| Users.EmailRefusal | code/controllers/users.js:133-144 | The candidate check passes exactly when every email is non-empty and well formed |
| Users.EmailRefusalNamesFirst | code/controllers/users.js:133-144 | A refusal names the first bad candidate, with all earlier candidates well formed. An empty one gets "empty string"; otherwise the message is "not in a valid email format" |
| Users.CheckEmails | code/controllers/users.js:134-144 | The check loop returns the first bad candidate's message, or nothing |
| Users.PartitionForAdd | code/controllers/users.js:158-176 | The partition loop of createGroup and addToGroup computes exactly the addition partition |
| Users.ScanMembers | code/controllers/users.js:532-537 | The scan of a group's members finds a candidate exactly when its email is among the members' emails |
| Users.PartitionForRemove | code/controllers/users.js:523-548 | The partition loop of removeFromGroup, with its scan of the members, computes exactly the removal partition |
| Users.WithCaller | code/controllers/users.js:147-150 | The candidates plus the caller's email, which is added at the end only when it is absent |
| Users.CreationRefusal | code/controllers/users.js:96-144 | Creation passes exactly when all of these hold: the caller is authenticated; the name and list are present; the name is new; the caller's account exists and is in no group; and every candidate is well formed. An empty name is reported before a missing list |
| Users.CreateGroup | code/controllers/users.js:89-205 | A refusal changes nothing. When the caller is the only eligible member, the request is refused. Otherwise the group is created with exactly the eligible members: at least two entries, the caller's email among them. Exclusive membership, unique names and populated groups are kept |
| Users.Establish | code/controllers/users.js:146-188 | After the checks pass, with the ungrouped caller among the candidates: if the caller is the only eligible member, the request fails and nothing changes. Otherwise a group of exactly the eligible members is appended. That group has at least two entries, the caller's email among them, and the invariants are kept |
| Users.AdditionRefusal | code/controllers/users.js:320-374 | Addition passes exactly when the list and name are present, the group exists, every candidate is well formed, and the caller passes the route's check (group member or admin) |
| Users.AddToGroup | code/controllers/users.js:314-441 | With nothing eligible the request fails. Otherwise the group's members become the old members followed by the eligible ones. The invariants are kept |
| Users.Enlist | code/controllers/users.js:380-411 | After the checks pass, the group at the found index gets the eligible candidates after its old members. With none eligible, the request fails and nothing changes. The invariants are kept |
| Users.WithdrawalRefusal | code/controllers/users.js:458-515 | Removal passes exactly when the list is present, the group exists, every candidate is well formed, the group has more than one member, and the caller passes the route's check. A single-member group refuses any well-formed list |
| Users.RemoveFromGroup | code/controllers/users.js:453-591 | With nothing to remove the request fails, and (corrected) so does a removal that would empty the group. Otherwise the listed members are pulled. Exclusive membership, unique names and populated groups are kept |
| Users.Withdraw | code/controllers/users.js:519-560 | After the checks pass: with nothing to remove, the request fails. If the removal would empty the group, it is refused (corrected). Otherwise the group keeps exactly the unlisted members, and the invariants are kept |
| Users.WithdrawAsWritten | code/controllers/users.js:486-560 | As written, a removal never passes for a single-member group, and every member it keeps was a member before |
| Users.UnguardedRemovalEmptiesGroup | code/controllers/users.js:486-560 | As written, listing every member of a group of two or more empties the group |
| Users.DeletionRefusal | code/controllers/users.js:605-644 | Deletion passes exactly when all of these hold: the email is present, non-empty and well formed; an account has it; that account is not an admin; and the caller is an admin. An admin account is refused whoever asks |
| Users.DeleteUser | code/controllers/users.js:602-688 | (Corrected) exactly the first account with the email goes. The cascade removes its membership: with unique names, only the group holding the email changes, deleted when the email was its only member. Its transactions are deleted, the count being exactly the number of that user's transactions (DropUserCounts), and the reply reports the count and the group flag. Exclusive membership is kept, and so are populated groups when no group repeats an email |
| Users.Expel | code/controllers/users.js:650-680 | For an existing account (corrected), exactly the first account with the email goes, the membership cascade runs (only the holding group changes, given unique names), and the user's transactions are deleted. The reply carries the deleted count, which is exactly the number of that user's transactions (DropUserCounts), and the group flag. Accounts stay unique and lose the email. Exclusive membership is kept, and the email is then in no group. Populated groups are kept when no group repeats an email |
| Users.DeleteUserAsWritten | code/controllers/users.js:650-674 | As written, the account list is unchanged by the deletion |
| Users.DeletedAccountLingers | code/controllers/users.js:650-674 | As written, a deleted user's account survives while its transactions and group membership are gone |
| Users.DeleteGroup | code/controllers/users.js:697-740 | An empty name, a missing name and an unknown group are 400s, in that order. Deletion succeeds exactly when the group exists and the caller is an admin. It deletes the first group of that name and nothing else, and a failure changes nothing. Exclusive membership, unique names and populated groups are kept. With unique names, no group of that name is left |
| Auth.RegistrationRefusal | code/controllers/auth.js:23-54 | Registration passes exactly when all fields are present and non-empty, the email is well formed, and both username and email are unused. An empty field is reported before a missing one, and a taken username before a taken email |
| Auth.NewAccount | code/controllers/auth.js:56-63 | The new account has a fresh id, the given username, email and role, no refresh token, and the hash of the password, never the password itself when the hash hides it |
| Auth.Enrol | code/controllers/auth.js:19-70 | A refusal changes nothing. Success adds exactly one account, and usernames and emails stay unique |
| Auth.Register | code/controllers/auth.js:19-70 | Registration answers the first failed check as a 400 and changes nothing. Otherwise it appends one "Regular" account and keeps usernames and emails unique |
| Auth.RegisterAdmin | code/controllers/auth.js:83-131 | The same checks as registration. Success appends one "Admin" account and keeps usernames and emails unique |
| Auth.LoginRefusal | code/controllers/auth.js:149-176 | Login passes exactly when both fields are present and non-empty, the email is well formed and has an account, and the password matches that account's hash |
| Auth.Login | code/controllers/auth.js:144-225 | A refusal is a 400 and changes nothing. Success answers a 1h and a 7d token over the same claims of the account: email, id, username and role. Only that account changes, and it now stores the refresh token. Accounts stay unique |
| Auth.ClaimsOf | code/controllers/auth.js:178-198 | The claims carry the account's username, email, id and role |
| Auth.LogoutRefusal | code/controllers/auth.js:239-251 | Logout passes exactly when the refresh cookie is present and some account holds it |
| Auth.Logout | code/controllers/auth.js:236-276 | Success clears the holder's refresh token and changes nothing else. Unique accounts and unique tokens are kept |
| Auth.RegisteredCanLogIn | code/controllers/auth.js:56-63 | With a sound hash, the account just registered logs in with the same email and password, and login finds that account |
| Auth.LoginTokensGrant | code/controllers/auth.js:178-201 | With a sound signer, the login tokens sent back as cookies are granted for any capability exactly when the account's claims meet it, and nothing is renewed |
| Auth.SecondLogoutFails | code/controllers/auth.js:247-253 | With unique refresh tokens, a second logout with the same cookie is refused |

## Left out

- The read endpoints are not modelled: getCategories, getAllTransactions, the per-category and
  per-group listings, getUsers, getUser, getGroups, getGroup. Only the filter of
  getTransactionsByUser is modelled, not its retrieval or its join with category colours.
- `refreshedTokenMessage` and the cookie options are left out. The rotated access token is the
  `rotated` field of `Session.Decision`.
- Users.CreateGroup: the two entries it promises (through Users.Establish) need not be two people. A candidate list that
  repeats the caller's email gets no extra caller entry, and both copies are eligible. The group
  is then created with the caller listed twice, as the code does
  (code/controllers/users.js:147-179).
- Route dispatch by substring of the URL is the `Users.Route` flag and the `adminRoute` argument.
  The source tests whether the URL contains "add", "insert", "remove" or "pull". A group name that
  contains another route's word runs both checks. The model runs only the check of the route taken.
- The non-array `types` branch of deleteCategory is left out (code/controllers/controller.js:219-242).
  So are the `typeof` and non-array checks on request bodies.
- The store is one sequential value, and every `await` is one step on it. Concurrent requests and
  the races between the read and write phases are not modelled.
- Amounts stay as the query or body text until `parseFloat`. Dates are strings with the fixed day
  bounds. No float or calendar arithmetic is modelled.
- Cast errors from the store (a malformed id) and errors thrown by hashing or signing are left out.
- Unlike the model, `bcrypt.hash` is salted at random. `Auth.Crypto.hash` is one fixed function.
- `jwt.verify` also checks expiry against the clock. The model's `verify` decides that outcome
  from the token text alone.
- The `message` fields of success replies are dropped wherever the reply also carries data.
- GroupStore.CascadeKeepsPopulated: it requires that no group lists an email twice. createGroup and
  addToGroup do not deduplicate the candidate list, because the partition consults the store and not
  the list. Repeated candidates therefore become repeated members, and deleting such an account
  can empty a group.
- Auth.RegisteredCanLogIn: it assumes a sound hash, where `compare(p, hash(p))` holds. Auth.LoginTokensGrant
  assumes a sound signer and non-empty tokens. These are properties of the libraries and are not
  shown by the code.
- Auth.SecondLogoutFails: it requires unique refresh tokens. Login does not enforce them. Two
  logins that sign identical claims would share a token, and logout clears only the first holder.

## Findings

| source | as written | input that shows it | evidently intended | confidence | as-written member | corrected member |
|---|---|---|---|---|---|---|
| code/controllers/controller.js:200-268 | When the list is longer than the store and covers every category, no fallback is found (`null`). The loop deletes the first listed category and then throws while reading the fallback's type | categories A, B; one transaction of type A; `types` = ["A", "B", "C"] | refuse before deleting anything when no category would be left to receive the transactions | not executed | CategoryStore.NullFallbackDangles | Controller.DeletionRefusal |
| code/controllers/users.js:651 | The account deletion is built but neither awaited nor executed, so the account is never removed. Its transactions and group membership are removed | any non-admin account, deleted by an admin | the account is deleted together with its records | not executed | Users.DeletedAccountLingers | Users.DeleteUser |
| code/controllers/users.js:486-560 | Only a group of exactly one member is protected. Listing every member of a larger group pulls them all and keeps an empty group | group with members a@x.io and b@x.io, both with accounts; `emails` = both | a group never becomes empty: the removal is refused | not executed | Users.UnguardedRemovalEmptiesGroup | Users.RemoveFromGroup |
