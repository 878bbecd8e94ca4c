/**
 * `create_rule`, `get_rules_of_policy`, `get_rule`, `update_rule`,
 * `delete_rule`: a rule needs an existing firewall, an existing policy and a
 * non-empty destination and protocol; its policy never changes afterwards.
 */
module RuleService {
  import opened Wrappers
  import opened Records
  import opened Store

  /**
   * `create_rule`. Reads `firewall_id` and looks the firewall up (when it is
   * missing the source fails while formatting its message, which names
   * `policy` before that variable is assigned); reads `policy_id` and looks
   * the policy up; requires truthy `destination_ip` and `protocol`; stores
   * the rule under a fresh id. The policy is not checked to belong to the
   * firewall.
   */
  method CreateRule(db: Database, data: RuleFields) returns (r: Result<Row<Rule>, ServiceError>)
    requires db.Valid()
    modifies db`rules, db`nextRuleId
    ensures db.Valid()
    // the checks, in the order the source makes them
    ensures data.firewallId.None? ==> r == Err(KeyError("firewall_id"))
    ensures data.firewallId.Some? && data.firewallId.value !in db.firewalls
            ==> r == Err(UnboundLocalError("policy"))
    ensures data.firewallId.Some? && data.firewallId.value in db.firewalls && data.policyId.None?
            ==> r == Err(KeyError("policy_id"))
    ensures data.firewallId.Some? && data.firewallId.value in db.firewalls
            && data.policyId.Some? && data.policyId.value !in db.policies
            ==> r == Err(PolicyDoesNotExist(data.policyId.value))
    ensures data.firewallId.Some? && data.firewallId.value in db.firewalls
            && data.policyId.Some? && data.policyId.value in db.policies
            && !(Truthy(data.destinationIp) && Truthy(data.protocol))
            ==> r == Err(RuleFieldsRequired)
    ensures r.Ok? <==>
            && data.firewallId.Some? && data.firewallId.value in db.firewalls
            && data.policyId.Some? && data.policyId.value in db.policies
            && Truthy(data.destinationIp) && Truthy(data.protocol)
    ensures r.Err? ==> db.rules == old(db.rules) && db.nextRuleId == old(db.nextRuleId)
    ensures r.Ok? ==>
            && r.value.id !in old(db.rules)
            && r.value.record == Rule(data.policyId.value, data.destinationIp.value, data.protocol.value)
            && db.rules == old(db.rules)[r.value.id := r.value.record]
            && GetRule(db, r.value.id) == Ok(r.value.record)
    // the new rule joins its policy's list; every other policy's list is as it was
    ensures r.Ok? ==>
            RulesOfPolicy(db, data.policyId.value) == old(RulesOfPolicy(db, data.policyId.value))[r.value.id := r.value.record]
    ensures r.Ok? ==> forall pid :: pid != data.policyId.value ==> RulesOfPolicy(db, pid) == old(RulesOfPolicy(db, pid))
  {
    if data.firewallId.None? {
      return Err(KeyError("firewall_id"));
    }
    if data.firewallId.value !in db.firewalls {
      return Err(UnboundLocalError("policy"));
    }
    if data.policyId.None? {
      return Err(KeyError("policy_id"));
    }
    var pid := data.policyId.value;
    if pid !in db.policies {
      return Err(PolicyDoesNotExist(pid));
    }
    if !Truthy(data.destinationIp) || !Truthy(data.protocol) {
      return Err(RuleFieldsRequired);
    }
    var id := db.nextRuleId;
    var rule := Rule(pid, data.destinationIp.value, data.protocol.value);
    forall other | other != pid
      ensures RulesWithPolicy(db.rules[id := rule], other) == RulesWithPolicy(db.rules, other)
    {
      RulesWithPolicyStore(db.rules, id, rule, other);
      assert id !in RulesWithPolicy(db.rules, other);
    }
    RulesWithPolicyStore(db.rules, id, rule, pid);
    db.rules := db.rules[id := rule];
    db.nextRuleId := id + 1;
    r := Ok(Row(id, rule));
  }

  /** The rules of `rules` whose `policy_id` is `policyId`, by id: the `filter_by(policy_id=...)` query. */
  function RulesWithPolicy(rules: map<int, Rule>, policyId: int): (r: map<int, Rule>)
    ensures forall id :: id in r <==> id in rules && rules[id].policyId == policyId
    ensures forall id :: id in r ==> r[id] == rules[id]
  {
    map id | id in rules && rules[id].policyId == policyId :: rules[id]
  }

  /** `get_rules_of_policy`: exactly the rules whose `policy_id` is `policyId`, by id. */
  function RulesOfPolicy(db: Database, policyId: int): (r: map<int, Rule>)
    reads db
    ensures forall id :: id in r <==> id in db.rules && db.rules[id].policyId == policyId
    ensures forall id :: id in r ==> r[id] == db.rules[id]
  {
    RulesWithPolicy(db.rules, policyId)
  }

  /**
   * Storing a rule under an id adds it to the list of its own policy (replacing
   * whatever that id held) and removes the id from every other policy's list.
   */
  lemma RulesWithPolicyStore(rules: map<int, Rule>, id: int, rule: Rule, policyId: int)
    ensures RulesWithPolicy(rules[id := rule], policyId)
            == if rule.policyId == policyId then RulesWithPolicy(rules, policyId)[id := rule]
               else RulesWithPolicy(rules, policyId) - {id}
  {
    var after, before := RulesWithPolicy(rules[id := rule], policyId), RulesWithPolicy(rules, policyId);
    if rule.policyId == policyId {
      assert after.Keys == before.Keys + {id};
    } else {
      assert after.Keys == before.Keys - {id};
    }
  }

  /** Removing a rule removes it from its policy's list and from no other rule. */
  lemma RulesWithPolicyRemove(rules: map<int, Rule>, id: int, policyId: int)
    ensures RulesWithPolicy(rules - {id}, policyId) == RulesWithPolicy(rules, policyId) - {id}
  {
    assert RulesWithPolicy(rules - {id}, policyId).Keys == RulesWithPolicy(rules, policyId).Keys - {id};
  }

  /** `get_rule`: the rule stored under `id`, or the "does not exist" error. */
  function GetRule(db: Database, id: int): (r: Result<Rule, ServiceError>)
    reads db
    ensures r.Ok? <==> id in db.rules
    ensures r.Ok? ==> r.value == db.rules[id]
    ensures r.Err? ==> r.error == RuleDoesNotExist(id)
  {
    if id in db.rules then Ok(db.rules[id]) else Err(RuleDoesNotExist(id))
  }

  /**
   * `update_rule`. Reads `rule_id` from the body, fails for an unknown rule,
   * and replaces `destination_ip` and `protocol` by the supplied values; any
   * other key, `policy_id` included, is ignored.
   */
  method UpdateRule(db: Database, data: RuleFields) returns (r: Result<Row<Rule>, ServiceError>)
    requires db.Valid()
    modifies db`rules
    ensures db.Valid()
    ensures data.ruleId.None? ==> r == Err(KeyError("rule_id"))
    ensures r.Ok? <==> data.ruleId.Some? && data.ruleId.value in old(db.rules)
    ensures data.ruleId.Some? && data.ruleId.value !in old(db.rules) ==> r == Err(RuleDoesNotExist(data.ruleId.value))
    ensures r.Err? ==> db.rules == old(db.rules)
    ensures r.Ok? ==>
            var id := data.ruleId.value;
            var before := old(db.rules)[id];
            && r.value == Row(id, Rule(before.policyId,
                                       data.destinationIp.GetOr(before.destinationIp),
                                       data.protocol.GetOr(before.protocol)))
            && db.rules == old(db.rules)[id := r.value.record]
    // an update never moves a rule to another policy's list
    ensures forall pid :: RulesOfPolicy(db, pid).Keys == old(RulesOfPolicy(db, pid)).Keys
  {
    if data.ruleId.None? {
      return Err(KeyError("rule_id"));
    }
    var id := data.ruleId.value;
    if id !in db.rules {
      return Err(RuleDoesNotExist(id));
    }
    var rule := db.rules[id];
    rule := rule.(destinationIp := data.destinationIp.GetOr(rule.destinationIp),
                  protocol := data.protocol.GetOr(rule.protocol));
    forall pid
      ensures RulesWithPolicy(db.rules[id := rule], pid).Keys == RulesWithPolicy(db.rules, pid).Keys
    {
      RulesWithPolicyStore(db.rules, id, rule, pid);
    }
    db.rules := db.rules[id := rule];
    r := Ok(Row(id, rule));
  }

  /** `delete_rule`: unknown id fails; otherwise exactly that rule is removed. */
  method DeleteRule(db: Database, id: int) returns (r: Result<(), ServiceError>)
    requires db.Valid()
    modifies db`rules
    ensures db.Valid()
    ensures r.Err? <==> id !in old(db.rules)
    ensures r.Err? ==> r.error == RuleDoesNotExist(id) && db.rules == old(db.rules)
    ensures r.Ok? ==> db.rules == old(db.rules) - {id} && GetRule(db, id) == Err(RuleDoesNotExist(id))
    // the rule leaves its policy's list and no other rule leaves any list
    ensures r.Ok? ==> forall pid :: RulesOfPolicy(db, pid) == old(RulesOfPolicy(db, pid)) - {id}
  {
    if id !in db.rules {
      return Err(RuleDoesNotExist(id));
    }
    forall pid
      ensures RulesWithPolicy(db.rules - {id}, pid) == RulesWithPolicy(db.rules, pid) - {id}
    {
      RulesWithPolicyRemove(db.rules, id, pid);
    }
    db.rules := db.rules - {id};
    r := Ok(());
  }
}
