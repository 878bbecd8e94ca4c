/**
 * The database session shared by the services: four tables keyed by primary
 * key, each with the next id the database will hand out, and the two queries
 * the services issue (`session.get` is a map lookup; `filter_by(...).first()`
 * is `First`).
 */
module Store {
  import opened Wrappers
  import opened Records

  /** Every primary key of `table` lies in `[1, next)`, so `next` is a fresh, positive key. */
  predicate IdsBelow<T>(table: map<int, T>, next: int) {
    1 <= next && forall id :: id in table ==> 1 <= id < next
  }

  // Queries over the firewall table.

  predicate NameTaken(fws: map<int, Firewall>, name: string) {
    exists id :: id in fws && fws[id].name == name
  }

  predicate IpTaken(fws: map<int, Firewall>, ip: string) {
    exists id :: id in fws && fws[id].ipAddress == ip
  }

  /** Some firewall other than `self` is called `name`. */
  predicate NameTakenByOther(fws: map<int, Firewall>, name: string, self: int) {
    exists id :: id in fws && id != self && fws[id].name == name
  }

  /** Some firewall other than `self` has address `ip`. */
  predicate IpTakenByOther(fws: map<int, Firewall>, ip: string, self: int) {
    exists id :: id in fws && id != self && fws[id].ipAddress == ip
  }

  predicate UniqueNames(fws: map<int, Firewall>) {
    forall i, j :: i in fws && j in fws && fws[i].name == fws[j].name ==> i == j
  }

  predicate UniqueIps(fws: map<int, Firewall>) {
    forall i, j :: i in fws && j in fws && fws[i].ipAddress == fws[j].ipAddress ==> i == j
  }

  // Queries over the policy table.

  /** A policy of firewall `fid` is called `name`. */
  predicate PolicyNameTakenIn(policies: map<int, Policy>, name: string, fid: int) {
    exists id :: id in policies && policies[id].name == name && policies[id].firewallId == fid
  }

  /** Some policy other than `self`, under any firewall, is called `name`. */
  predicate PolicyNameTakenByOther(policies: map<int, Policy>, name: string, self: int) {
    exists id :: id in policies && id != self && policies[id].name == name
  }

  // Queries over the users table.

  predicate EmailTaken(users: map<int, User>, email: string) {
    exists id :: id in users && users[id].email == email
  }

  /** Some user other than `self` has address `email`. */
  predicate EmailTakenByOther(users: map<int, User>, email: string, self: int) {
    exists id :: id in users && id != self && users[id].email == email
  }

  predicate UniqueEmails(users: map<int, User>) {
    forall i, j :: i in users && j in users && users[i].email == users[j].email ==> i == j
  }

  /**
   * `query.filter_by(...).first()`: the key of SOME row satisfying `p`, or
   * `None` when no row does. SQL leaves the order of the rows unspecified,
   * so the model does not say which matching row is returned.
   */
  method First<T>(table: map<int, T>, p: T -> bool) returns (r: Option<int>)
    ensures r.Some? ==> r.value in table && p(table[r.value])
    ensures r.None? <==> forall id :: id in table ==> !p(table[id])
  {
    if id :| id in table && p(table[id]) {
      r := Some(id);
    } else {
      r := None;
    }
  }

  /** The session: the four tables the services keep consistent. */
  class Database {
    var firewalls: map<int, Firewall>
    var policies: map<int, Policy>
    var rules: map<int, Rule>
    var users: map<int, User>
    var nextFirewallId: int
    var nextPolicyId: int
    var nextRuleId: int
    var nextUserId: int

    /**
     * Keys are below their table's counter, and firewall names, firewall
     * addresses and user emails are each held by at most one row.
     */
    ghost predicate Valid()
      reads this
    {
      && IdsBelow(firewalls, nextFirewallId)
      && IdsBelow(policies, nextPolicyId)
      && IdsBelow(rules, nextRuleId)
      && IdsBelow(users, nextUserId)
      && UniqueNames(firewalls)
      && UniqueIps(firewalls)
      && UniqueEmails(users)
    }

    /** An empty database. */
    constructor ()
      ensures Valid()
      ensures firewalls == map[] && policies == map[] && rules == map[] && users == map[]
    {
      firewalls, policies, rules, users := map[], map[], map[], map[];
      nextFirewallId, nextPolicyId, nextRuleId, nextUserId := 1, 1, 1, 1;
    }
  }
}
