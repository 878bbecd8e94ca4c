# Firewall / policy / rule manager — service layer model

This project models the service layer of a small Flask application that manages firewalls, the
policies under each firewall, the rules under each policy, and the users allowed to change them.
Each service function checks the current contents of the tables and then changes one of them.
The checks are: does the id exist, does the parent exist, is a field unique (a record may keep its
own value), is `status` one of `active`/`inactive`. The change is an insert, a field-by-field
partial update, or a delete of one row. A decorator, `role_required`, lets a route run only for a
user who holds the named role.

Layout:

- `Wrappers.dfy`: `Option` and `Result`.
- `Records.dfy`: the rows (`Firewall`, `Policy`, `Rule`, `User`), the request bodies (records of
  optional fields: an absent JSON key is `None`) and `ServiceError`, one variant per exception
  the services raise.
- `Store.dfy`: the database session, a class `Database` with one `map<int, Record>` per table and
  one fresh-id counter per table. `Valid()` says that ids are below their counter and that
  firewall names, firewall addresses and user emails are each held by at most one row.
  `First` models `query.filter_by(...).first()`.
- `FirewallService.dfy`, `PolicyService.dfy`, `RuleService.dfy`, `UserService.dfy`: one method or
  function per service function. Lookups are functions that read the database. Operations that
  change a table are methods whose `modifies` clause names only that table and its counter.
- `Decorators.dfy`: `role_required` as a function of the user table, the resolved token identity
  and the wrapped route.
- `Scenarios.dfy`: client code in the style of the tests. It only uses the contracts.

Every failing path returns `Err` and leaves the tables unchanged. When several checks fail, the
contracts give the error of the first check the source makes. This includes the `KeyError`
raised by `data['key']` for an absent key.

Behaviour reproduced as the code has it:

- Policy names must be unique per firewall on create (`app/services/policy_service.py:14`), but
  on update they are checked against every policy (`app/services/policy_service.py:37`).
  `update_policy` checks the name even when none is supplied: it uses the current name then.
  So a policy that shares its name with a policy of another firewall may fail a status-only
  update. The outcome depends on which row `first()` returns, and the contract allows both.
- `create_rule` looks up the firewall before the policy. When the firewall is missing, the error
  message names `policy` before that variable is assigned. The call therefore fails with
  `UnboundLocalError("policy")` and creates nothing (`app/services/rule_service.py:10`).
  It also requires a non-empty `destination_ip` as well as `protocol`. It does not check that the
  policy belongs to the firewall.
- `update_policy` stores a supplied `status` and `firewall_id` without checking them.

Behaviour of the code a reader might not expect:

- `create_firewall` reads `data['description']`, so a missing description is a `KeyError`. It
  does not default to the empty string.
- `get_policy` takes only the policy id. It is not scoped to a firewall.
- A rule needs `firewall_id` and `destination_ip` as well as `policy_id` and `protocol`.
- Uniqueness failures and not-found failures are all `ValueError` in the code. The model keeps
  them apart by message, as `ServiceError` variants.

## Model

| member | source | states |
|---|---|---|
| Store.First | app/services/policy_service.py:36-38 | `filter_by(...).first()` returns the id of some row that satisfies the filter. It returns nothing exactly when no row does. |
| FirewallService.GetFirewall | app/services/firewall_service.py:23-24 | Returns the firewall stored under the id, and nothing for an unknown id. |
| FirewallService.CreateFirewall | app/services/firewall_service.py:4-21 | Fails with the name error if any firewall has the name, and with the address error if any has the ip_address. Checks run in source order, missing keys included. On failure the table is unchanged. On success exactly one firewall with the supplied fields is added under a fresh id, and a later get returns it. Names and addresses stay unique. |
| FirewallService.UpdateFirewall | app/services/firewall_service.py:26-46 | Unknown id fails with "not found". A supplied name or ip_address held by a different firewall is rejected. The firewall's own current values are always accepted. On success, supplied fields replace the stored ones and absent fields keep their values. No other firewall changes, and names and addresses stay unique. |
| FirewallService.DeleteFirewall | app/services/firewall_service.py:48-54 | Unknown id fails and changes nothing. Otherwise exactly that id is removed and a later get returns nothing. |
| PolicyService.GetPolicy | app/services/policy_service.py:28-29 | Returns the policy stored under the id, and nothing for an unknown id. |
| PolicyService.CreatePolicy | app/services/policy_service.py:5-26 | Checks run in order: firewall_id present, firewall exists, status (default "active") in {active, inactive}, name present, name not used under that firewall. The same name under another firewall is accepted. On failure nothing is created. On success one policy with the supplied name, firewall and status is added. |
| PolicyService.UpdatePolicy | app/services/policy_service.py:31-45 | Unknown id fails. A new name held by any other policy, under any firewall, is rejected. A name no other policy holds is accepted, the policy's own name included. Absent name/firewall_id/status keep their values. Supplied status and firewall_id are stored without checks, and no other policy changes. |
| PolicyService.DeletePolicy | app/services/policy_service.py:47-53 | Unknown id fails and changes nothing. Otherwise exactly that policy is removed. |
| RuleService.CreateRule | app/services/rule_service.py:7-27 | Missing firewall fails (with the UnboundLocalError the message raises). Missing policy fails. Empty or absent destination_ip or protocol fails. Nothing is created on failure. On success one rule with the supplied policy_id, destination_ip and protocol is added, and get_rule returns it. get_rules_of_policy for that policy gains exactly that rule, and every other policy's list is unchanged. |
| RuleService.RulesOfPolicy | app/services/rule_service.py:29-30 | Returns exactly the stored rules whose policy_id is the argument. |
| RuleService.RulesWithPolicyStore | app/services/rule_service.py:29-30 | Storing a rule under an id puts it on its own policy's list, replacing what that id held, and takes the id off every other policy's list. |
| RuleService.RulesWithPolicyRemove | app/services/rule_service.py:29-30 | Removing a rule takes it off its policy's list and leaves every other entry of every list in place. |
| RuleService.GetRule | app/services/rule_service.py:32-36 | Unknown id fails with "does not exist". Otherwise returns the stored rule. |
| RuleService.UpdateRule | app/services/rule_service.py:38-46 | Absent rule_id or unknown rule fails and changes nothing. Otherwise supplied destination_ip/protocol replace the stored ones, absent ones keep their values, and policy_id never changes, so no rule moves between the lists of get_rules_of_policy. |
| RuleService.DeleteRule | app/services/rule_service.py:48-54 | Unknown id fails. Otherwise only that rule is removed, a later get_rule fails, and get_rules_of_policy loses that rule and nothing else. |
| UserService.Supplied | app/services/user_service.py:37-38 | The entry a request body holds under a key is an entry of the body with that key. There is none exactly when no entry has the key. |
| UserService.SuppliedIsLast | app/services/user_service.py:37-38 | The entry found under a key is the last one with that key: no later entry of the body has the key, as a JSON object keeps the last of repeated keys. |
| UserService.SuppliedSnoc | app/services/user_service.py:45-46 | An entry added at the end of the body wins over every earlier entry with the same key. |
| UserService.SuppliedHashed | app/services/user_service.py:42-43 | After hashing, the body holds an entry under exactly the keys it held before. The entry under the password key is hashed. |
| UserService.HashPasswordsSupplied | app/services/user_service.py:42-43 | Hashing the body changes only the password, which becomes the hash of the supplied one. Which keys are present stays the same. |
| UserService.PatchedSnoc | app/services/user_service.py:45-46 | One more `setattr` after a prefix of the body gives the patch of the longer prefix. |
| UserService.ApplyAttributes | app/services/user_service.py:45-46 | The `setattr` loop yields the user with every supplied field set to its value and every other field unchanged. |
| UserService.LoginUser | app/services/user_service.py:9-13 | Returns a token exactly when a user has the email and the password checks against its stored hash. The token is issued for that user's id. Otherwise fails with "Bad credentials". |
| UserService.RegisterUser | app/services/user_service.py:15-27 | A taken email fails and changes nothing. Otherwise one user is added with the hash of the password, active, roles exactly ["user"], and the email as uniquifier. Emails stay unique. |
| UserService.GetUser | app/services/user_service.py:29-30 | Returns the user stored under the id, and nothing for an unknown id. |
| UserService.UpdateUser | app/services/user_service.py:32-49 | Unknown user fails. An email held by a different user is rejected, and the user's own email is accepted. A supplied password is stored as its hash, other supplied fields as given, absent fields and roles unchanged. Emails stay unique. |
| UserService.DeleteUser | app/services/user_service.py:51-57 | Unknown id fails. Otherwise exactly that user is removed. |
| Decorators.RoleRequired | app/utils/decorators.py:6-18 | Without a valid token the request is unauthenticated. It is denied exactly when the identity resolves to no user or the user lacks the role. Otherwise the wrapped route's answer for the same arguments is returned unchanged. |
| Decorators.PermitsIgnoresRoleOrder | app/utils/decorators.py:15 | The decision depends only on which role names the user holds, not on their order or repetition. |

## Left out

- HTTP routes, status-code mapping and the request schemas (`app/routes`, `app/schemas`). Email-format and length validation is done there by a library.
- Password hashing, `check_password_hash`, token creation and token verification. They are parameters: `hash`, `checkHash`, `issue`, and the resolved `identity`.
- UserService.RegisterUser: the hash is a given function. The random salt of the real hash is not modelled.
- UserService.RegisterUser: the email is also stored as `fs_uniquifier`, which the database keeps unique (`app/models/user.py:23`). `update_user_service` can change a user's email and keep the old uniquifier. Registering the old email again then passes the email check but fails at commit in the code; the model returns `Ok`.
- Store.First: the contract does not say which matching row is returned, because the SQL query has no ORDER BY.
- PolicyService.UpdatePolicy: when the policy keeps a name that another policy also holds, the contract allows both success and `PolicyNameExists`. Which happens depends on the row `first()` returns.
- UserService.UpdateUser: only the keys `email`, `password` and `active` are modelled. Setting `roles`, `id` or `fs_uniquifier`, or an attribute the table does not have, is not modelled.
- The `policies` and `rules` lists that create_firewall and create_policy pass on from the body. Nested child records are not modelled.
- The rows follow the fields the services read and write, not the ORM classes. `Policy` has no `status` column (`app/models/policy.py:3-7`), and `Rule` has no `destination_ip` or `protocol` column (`app/models/rule.py:3-6`). Constructing those rows with these keywords would be rejected by the ORM's constructor, so in the code `create_policy` and `create_rule` would fail at that point. The model stores the fields as the services pass them.
- Roles are kept by name. The role table, role descriptions and the `init_db.py` seeding are not modelled.
- How the database picks new ids. The model uses one counter per table and relies only on freshness.
- Unique constraints enforced by the database at commit, transactions, rollback and concurrency between a check and its insert.
- FirewallService.DeleteFirewall, PolicyService.DeletePolicy: in the code, deleting a firewall that still has policies, or a policy that still has rules, fails at commit. The relationship's default cascade sets the children's foreign key to NULL, and `firewall_id` and `policy_id` are declared NOT NULL (`app/models/firewall.py:8`, `app/models/policy.py:6-7`, `app/models/rule.py:6`). The model's deletes always succeed on a known id. `Scenarios.CorpLifecycle` deletes children before their parent, where both agree.
- Value types of JSON fields: every value is a string, an integer or a boolean as the record says. `null` values are not modelled.
- Listing all firewalls, and listing policies per firewall. The services have no such function.
