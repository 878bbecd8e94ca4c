/**
 * Client code in the style of the repository's tests: what a caller can
 * conclude from the services' contracts alone.
 */
module Scenarios {
  import opened Wrappers
  import opened Records
  import opened Store
  import opened FirewallService
  import opened PolicyService
  import opened RuleService

  /**
   * A firewall, a duplicate, one without a description, a policy with the
   * default status and a rule; then the rule, the policy and the firewall
   * are deleted, children before their parent.
   */
  method CorpLifecycle() {
    var db := new Database();
    var fw := CreateFirewall(db, FirewallFields(Some("Corp"), Some(""), Some("10.0.0.1")));
    assert fw.Ok?;
    var fid := fw.value.id;
    var dup := CreateFirewall(db, FirewallFields(Some("Corp"), Some(""), Some("10.0.0.2")));
    assert db.firewalls[fid].name == "Corp";
    assert dup == Err(FirewallNameExists("Corp"));
    var bare := CreateFirewall(db, FirewallFields(Some("Edge"), None, Some("10.0.0.3")));
    assert bare == Err(KeyError("description"));

    var p := CreatePolicy(db, PolicyFields(Some("AllowHTTP"), Some(fid), None));
    assert p.Ok? && p.value.record.status == ACTIVE;
    var pid := p.value.id;
    var rule := CreateRule(db, RuleFields(None, Some(fid), Some(pid), Some("10.0.0.5"), Some("TCP")));
    assert rule.Ok? && rule.value.record == Rule(pid, "10.0.0.5", "TCP");
    var rid := rule.value.id;
    assert RulesOfPolicy(db, pid) == map[rid := Rule(pid, "10.0.0.5", "TCP")];

    var delRule := DeleteRule(db, rid);
    assert delRule.Ok? && RulesOfPolicy(db, pid) == map[];
    var delPolicy := DeletePolicy(db, pid);
    assert delPolicy.Ok? && GetPolicy(db, pid).None?;
    var delFirewall := DeleteFirewall(db, fid);
    assert delFirewall.Ok? && GetFirewall(db, fid).None?;
  }

  /**
   * The same policy name is accepted under two firewalls; renaming a policy
   * to a name another firewall's policy holds is then rejected.
   */
  method PolicyNames() {
    var db := new Database();
    var a := CreateFirewall(db, FirewallFields(Some("A"), Some(""), Some("10.0.0.1")));
    var b := CreateFirewall(db, FirewallFields(Some("B"), Some(""), Some("10.0.0.2")));
    assert a.Ok? && b.Ok? && a.value.id != b.value.id;
    var p := CreatePolicy(db, PolicyFields(Some("Web"), Some(a.value.id), Some(INACTIVE)));
    assert p.Ok?;
    var q := CreatePolicy(db, PolicyFields(Some("Mail"), Some(b.value.id), None));
    assert q.Ok?;
    var same := CreatePolicy(db, PolicyFields(Some("Web"), Some(b.value.id), None));
    assert same.Ok?;
    var rename := UpdatePolicy(db, q.value.id, PolicyFields(Some("Web"), None, None));
    assert rename == Err(PolicyNameExists("Web"));
    var bad := CreatePolicy(db, PolicyFields(Some("Ssh"), Some(a.value.id), Some("paused")));
    assert bad == Err(InvalidStatus);
  }
}
