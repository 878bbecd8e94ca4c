/**
 * `create_policy`, `get_policy`, `update_policy`, `delete_policy`: the parent
 * firewall must exist on create, the status must be `active` or `inactive`
 * on create, and a name is unique per firewall on create but checked against
 * every policy on update.
 */
module PolicyService {
  import opened Wrappers
  import opened Records
  import opened Store

  /** `status in ['active', 'inactive']`. */
  predicate ValidStatus(status: string) {
    status == ACTIVE || status == INACTIVE
  }

  /** `get_policy`: the policy stored under `id`, if any. */
  function GetPolicy(db: Database, id: int): (r: Option<Policy>)
    reads db
    ensures r.Some? <==> id in db.policies
    ensures r.Some? ==> r.value == db.policies[id]
  {
    if id in db.policies then Some(db.policies[id]) else None
  }

  /**
   * `create_policy`. Reads `firewall_id` and looks the firewall up, defaults
   * and checks `status`, reads `name` and rejects a name already used under
   * the same firewall, then stores the policy under a fresh id.
   */
  method CreatePolicy(db: Database, data: PolicyFields) returns (r: Result<Row<Policy>, ServiceError>)
    requires db.Valid()
    modifies db`policies, db`nextPolicyId
    ensures db.Valid()
    // the checks, in the order the source makes them
    ensures data.firewallId.None? ==> r == Err(KeyError("firewall_id"))
    ensures data.firewallId.Some? && data.firewallId.value !in db.firewalls
            ==> r == Err(FirewallDoesNotExist(data.firewallId.value))
    ensures data.firewallId.Some? && data.firewallId.value in db.firewalls
            && !ValidStatus(data.status.GetOr(ACTIVE))
            ==> r == Err(InvalidStatus)
    ensures data.firewallId.Some? && data.firewallId.value in db.firewalls
            && ValidStatus(data.status.GetOr(ACTIVE)) && data.name.None?
            ==> r == Err(KeyError("name"))
    ensures data.firewallId.Some? && data.firewallId.value in db.firewalls
            && ValidStatus(data.status.GetOr(ACTIVE)) && data.name.Some?
            && PolicyNameTakenIn(old(db.policies), data.name.value, data.firewallId.value)
            ==> r == Err(PolicyNameExistsForFirewall(data.name.value))
    ensures r.Ok? <==>
            && data.firewallId.Some? && data.firewallId.value in db.firewalls
            && ValidStatus(data.status.GetOr(ACTIVE))
            && data.name.Some?
            && !PolicyNameTakenIn(old(db.policies), data.name.value, data.firewallId.value)
    ensures r.Err? ==> db.policies == old(db.policies) && db.nextPolicyId == old(db.nextPolicyId)
    ensures r.Ok? ==>
            && r.value.id !in old(db.policies)
            && r.value.record == Policy(data.name.value, data.firewallId.value, data.status.GetOr(ACTIVE))
            && db.policies == old(db.policies)[r.value.id := r.value.record]
            && GetPolicy(db, r.value.id) == Some(r.value.record)
  {
    if data.firewallId.None? {
      return Err(KeyError("firewall_id"));
    }
    var fid := data.firewallId.value;
    if fid !in db.firewalls {
      return Err(FirewallDoesNotExist(fid));
    }
    var status := data.status.GetOr(ACTIVE);
    if !ValidStatus(status) {
      return Err(InvalidStatus);
    }
    if data.name.None? {
      return Err(KeyError("name"));
    }
    var name := data.name.value;
    var existing := First(db.policies, (p: Policy) => p.name == name && p.firewallId == fid);
    if existing.Some? {
      return Err(PolicyNameExistsForFirewall(name));
    }
    var id := db.nextPolicyId;
    var policy := Policy(name, fid, status);
    db.policies := db.policies[id := policy];
    db.nextPolicyId := id + 1;
    r := Ok(Row(id, policy));
  }

  /**
   * `update_policy`. The name to store is the supplied one or the current
   * one; `first()` over ALL policies with that name must return this policy
   * or nothing. The supplied `firewall_id` and `status` are stored without
   * any check.
   */
  method UpdatePolicy(db: Database, id: int, data: PolicyFields) returns (r: Result<Row<Policy>, ServiceError>)
    requires db.Valid()
    modifies db`policies
    ensures db.Valid()
    ensures id !in old(db.policies) ==> r == Err(PolicyDoesNotExist(id))
    // a new name held by another policy, under any firewall, is rejected
    ensures id in old(db.policies) && data.name.Some? && data.name.value != old(db.policies)[id].name
            && PolicyNameTakenByOther(old(db.policies), data.name.value, id)
            ==> r == Err(PolicyNameExists(data.name.value))
    // a name no other policy holds, the policy's own included, is accepted
    ensures id in old(db.policies)
            && !PolicyNameTakenByOther(old(db.policies), data.name.GetOr(old(db.policies)[id].name), id)
            ==> r.Ok?
    // the only other way to fail
    ensures r.Err? && id in old(db.policies) ==>
            var name := data.name.GetOr(old(db.policies)[id].name);
            r == Err(PolicyNameExists(name)) && PolicyNameTakenByOther(old(db.policies), name, id)
    ensures r.Err? ==> db.policies == old(db.policies)
    ensures r.Ok? ==>
            var before := old(db.policies)[id];
            && id in old(db.policies)
            && r.value == Row(id, Policy(data.name.GetOr(before.name),
                                         data.firewallId.GetOr(before.firewallId),
                                         data.status.GetOr(before.status)))
            && db.policies == old(db.policies)[id := r.value.record]
  {
    if id !in db.policies {
      return Err(PolicyDoesNotExist(id));
    }
    var policy := db.policies[id];
    var newName := data.name.GetOr(policy.name);
    var existing := First(db.policies, (p: Policy) => p.name == newName);
    if existing.Some? && existing.value != id {
      return Err(PolicyNameExists(newName));
    }
    policy := Policy(newName, data.firewallId.GetOr(policy.firewallId), data.status.GetOr(policy.status));
    db.policies := db.policies[id := policy];
    r := Ok(Row(id, policy));
  }

  /** `delete_policy`: unknown id fails; otherwise exactly that policy is removed. */
  method DeletePolicy(db: Database, id: int) returns (r: Result<(), ServiceError>)
    requires db.Valid()
    modifies db`policies
    ensures db.Valid()
    ensures r.Err? <==> id !in old(db.policies)
    ensures r.Err? ==> r.error == PolicyDoesNotExist(id) && db.policies == old(db.policies)
    ensures r.Ok? ==> db.policies == old(db.policies) - {id} && GetPolicy(db, id).None?
  {
    if id !in db.policies {
      return Err(PolicyDoesNotExist(id));
    }
    db.policies := db.policies - {id};
    r := Ok(());
  }
}
