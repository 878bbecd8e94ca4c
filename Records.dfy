/**
 * The records the four service modules read and write, the request bodies
 * they receive, and the exceptions they raise.
 *
 * Record shapes follow the services, not the ORM classes: a policy has a
 * `status` and a rule has `destination_ip` and `protocol`.
 */
module Records {
  import opened Wrappers

  /** A row of the firewall table. */
  datatype Firewall = Firewall(name: string, description: string, ipAddress: string)

  /** A row of the policy table; `firewallId` is the parent firewall's id. */
  datatype Policy = Policy(name: string, firewallId: int, status: string)

  /** A row of the rule table; `policyId` is the parent policy's id. */
  datatype Rule = Rule(policyId: int, destinationIp: string, protocol: string)

  /**
   * A row of the users table. `password` holds the stored hash, `roles` the
   * names of the user's roles, `uniquifier` the `fs_uniquifier` column.
   */
  datatype User = User(email: string, password: string, active: bool, roles: seq<string>, uniquifier: string)

  /** A stored record together with the primary key it is stored under. */
  datatype Row<T> = Row(id: int, record: T)

  /** The JSON body given to `create_firewall` / `update_firewall`; an absent key is `None`. */
  datatype FirewallFields = FirewallFields(name: Option<string>, description: Option<string>, ipAddress: Option<string>)

  /** The JSON body given to `create_policy` / `update_policy`. */
  datatype PolicyFields = PolicyFields(name: Option<string>, firewallId: Option<int>, status: Option<string>)

  /** The JSON body given to `create_rule` / `update_rule`. */
  datatype RuleFields = RuleFields(
    ruleId: Option<int>,
    firewallId: Option<int>,
    policyId: Option<int>,
    destinationIp: Option<string>,
    protocol: Option<string>)

  /** The JSON body given to `register_user`. */
  datatype Registration = Registration(email: Option<string>, password: Option<string>)

  /** An access token, as issued for a user id. */
  type Token = string

  const ACTIVE: string := "active"
  const INACTIVE: string := "inactive"
  const DEFAULT_ROLE: string := "user"

  /**
   * The exceptions the services raise. Every `ValueError` of the source is
   * one variant, named after its message; `KeyError` is raised by
   * `data['key']` when the key is absent; `UnboundLocalError` is what the
   * firewall check of `create_rule` raises while formatting its message.
   */
  datatype ServiceError =
    | KeyError(key: string)
    | UnboundLocalError(variable: string)
    // firewall_service.py
    | FirewallNameExists(name: string)
    | FirewallIpExists(ipAddress: string)
    | FirewallNotFound
    | FirewallNameInUse
    | FirewallIpInUse
    // policy_service.py
    | FirewallDoesNotExist(firewallId: int)
    | InvalidStatus
    | PolicyNameExistsForFirewall(name: string)
    | PolicyDoesNotExist(policyId: int)
    | PolicyNameExists(name: string)
    // rule_service.py
    | RuleFieldsRequired
    | RuleDoesNotExist(ruleId: int)
    // user_service.py
    | BadCredentials
    | UserAlreadyExists
    | UserNotFound
    | EmailInUse

  /** Python truthiness of an optional string: present and non-empty. */
  predicate Truthy(s: Option<string>) {
    s.Some? && s.value != ""
  }
}
