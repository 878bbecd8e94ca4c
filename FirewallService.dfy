/**
 * `create_firewall`, `get_firewall`, `update_firewall`, `delete_firewall`:
 * firewall names and addresses stay unique, updates are partial, deletes
 * remove exactly one row.
 */
module FirewallService {
  import opened Wrappers
  import opened Records
  import opened Store

  /** `get_firewall`: the firewall stored under `id`, if any. */
  function GetFirewall(db: Database, id: int): (r: Option<Firewall>)
    reads db
    ensures r.Some? <==> id in db.firewalls
    ensures r.Some? ==> r.value == db.firewalls[id]
  {
    if id in db.firewalls then Some(db.firewalls[id]) else None
  }

  /**
   * `create_firewall`. Reads `name`, rejects a taken name, reads
   * `ip_address`, rejects a taken address, reads `description`, then stores
   * the new firewall under a fresh id.
   */
  method CreateFirewall(db: Database, data: FirewallFields) returns (r: Result<Row<Firewall>, ServiceError>)
    requires db.Valid()
    modifies db`firewalls, db`nextFirewallId
    ensures db.Valid()
    // the checks, in the order the source makes them
    ensures data.name.None? ==> r == Err(KeyError("name"))
    ensures data.name.Some? && NameTaken(old(db.firewalls), data.name.value)
            ==> r == Err(FirewallNameExists(data.name.value))
    ensures data.name.Some? && !NameTaken(old(db.firewalls), data.name.value) && data.ipAddress.None?
            ==> r == Err(KeyError("ip_address"))
    ensures data.name.Some? && !NameTaken(old(db.firewalls), data.name.value)
            && data.ipAddress.Some? && IpTaken(old(db.firewalls), data.ipAddress.value)
            ==> r == Err(FirewallIpExists(data.ipAddress.value))
    ensures data.name.Some? && !NameTaken(old(db.firewalls), data.name.value)
            && data.ipAddress.Some? && !IpTaken(old(db.firewalls), data.ipAddress.value)
            && data.description.None?
            ==> r == Err(KeyError("description"))
    ensures r.Ok? <==>
            && data.name.Some? && data.ipAddress.Some? && data.description.Some?
            && !NameTaken(old(db.firewalls), data.name.value)
            && !IpTaken(old(db.firewalls), data.ipAddress.value)
    // a failed create changes nothing
    ensures r.Err? ==> db.firewalls == old(db.firewalls) && db.nextFirewallId == old(db.nextFirewallId)
    // a successful one adds exactly the supplied firewall under a fresh id
    ensures r.Ok? ==>
            && r.value.id !in old(db.firewalls)
            && r.value.record == Firewall(data.name.value, data.description.value, data.ipAddress.value)
            && db.firewalls == old(db.firewalls)[r.value.id := r.value.record]
            && GetFirewall(db, r.value.id) == Some(r.value.record)
  {
    if data.name.None? {
      return Err(KeyError("name"));
    }
    var name := data.name.value;
    var byName := First(db.firewalls, (f: Firewall) => f.name == name);
    if byName.Some? {
      return Err(FirewallNameExists(name));
    }
    if data.ipAddress.None? {
      return Err(KeyError("ip_address"));
    }
    var ip := data.ipAddress.value;
    var byIp := First(db.firewalls, (f: Firewall) => f.ipAddress == ip);
    if byIp.Some? {
      return Err(FirewallIpExists(ip));
    }
    if data.description.None? {
      return Err(KeyError("description"));
    }
    var id := db.nextFirewallId;
    var firewall := Firewall(name, data.description.value, ip);
    db.firewalls := db.firewalls[id := firewall];
    db.nextFirewallId := id + 1;
    r := Ok(Row(id, firewall));
  }

  /**
   * `update_firewall`: unknown id fails; a supplied name or address held by
   * ANOTHER firewall fails; otherwise each supplied field replaces the stored
   * one and every other field keeps its value.
   */
  method UpdateFirewall(db: Database, id: int, data: FirewallFields) returns (r: Result<Row<Firewall>, ServiceError>)
    requires db.Valid()
    modifies db`firewalls
    ensures db.Valid()
    ensures id !in old(db.firewalls) ==> r == Err(FirewallNotFound)
    ensures id in old(db.firewalls) && data.name.Some? && NameTakenByOther(old(db.firewalls), data.name.value, id)
            ==> r == Err(FirewallNameInUse)
    ensures id in old(db.firewalls)
            && !(data.name.Some? && NameTakenByOther(old(db.firewalls), data.name.value, id))
            && data.ipAddress.Some? && IpTakenByOther(old(db.firewalls), data.ipAddress.value, id)
            ==> r == Err(FirewallIpInUse)
    ensures r.Ok? <==>
            && id in old(db.firewalls)
            && !(data.name.Some? && NameTakenByOther(old(db.firewalls), data.name.value, id))
            && !(data.ipAddress.Some? && IpTakenByOther(old(db.firewalls), data.ipAddress.value, id))
    // the firewall's own current name and address are always accepted
    ensures id in old(db.firewalls)
            && data.name in {None, Some(old(db.firewalls)[id].name)}
            && data.ipAddress in {None, Some(old(db.firewalls)[id].ipAddress)}
            ==> r.Ok?
    ensures r.Err? ==> db.firewalls == old(db.firewalls)
    ensures r.Ok? ==>
            var before := old(db.firewalls)[id];
            && r.value == Row(id, Firewall(data.name.GetOr(before.name),
                                           data.description.GetOr(before.description),
                                           data.ipAddress.GetOr(before.ipAddress)))
            && db.firewalls == old(db.firewalls)[id := r.value.record]
  {
    if id !in db.firewalls {
      return Err(FirewallNotFound);
    }
    var firewall := db.firewalls[id];
    if data.name.Some? {
      var name := data.name.value;
      var existing := First(db.firewalls, (f: Firewall) => f.name == name);
      if existing.Some? && existing.value != id {
        return Err(FirewallNameInUse);
      }
    }
    if data.ipAddress.Some? {
      var ip := data.ipAddress.value;
      var existing := First(db.firewalls, (f: Firewall) => f.ipAddress == ip);
      if existing.Some? && existing.value != id {
        return Err(FirewallIpInUse);
      }
    }
    firewall := Firewall(data.name.GetOr(firewall.name),
                         data.description.GetOr(firewall.description),
                         data.ipAddress.GetOr(firewall.ipAddress));
    db.firewalls := db.firewalls[id := firewall];
    r := Ok(Row(id, firewall));
  }

  /**
   * `delete_firewall`: unknown id fails and changes nothing; otherwise
   * exactly that firewall is removed; the model does not touch the policy table.
   */
  method DeleteFirewall(db: Database, id: int) returns (r: Result<(), ServiceError>)
    requires db.Valid()
    modifies db`firewalls
    ensures db.Valid()
    ensures r.Err? <==> id !in old(db.firewalls)
    ensures r.Err? ==> r.error == FirewallNotFound && db.firewalls == old(db.firewalls)
    ensures r.Ok? ==> db.firewalls == old(db.firewalls) - {id} && GetFirewall(db, id).None?
  {
    if id !in db.firewalls {
      return Err(FirewallNotFound);
    }
    db.firewalls := db.firewalls - {id};
    r := Ok(());
  }
}
