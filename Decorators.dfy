/**
 * `role_required(required_role)`: a route wrapped by it runs only for a
 * request whose token resolves to an existing user that holds a role with
 * that name. Token verification is given: `identity` is the identity
 * `verify_jwt_in_request` / `get_jwt_identity` resolve the request's token
 * to, `None` when there is no valid token.
 */
module Decorators {
  import opened Wrappers
  import opened Records
  import opened Store

  /** What the wrapped route answers. */
  datatype Access<R> =
    | Unauthenticated    // no valid token: `verify_jwt_in_request` raises
    | Forbidden          // 403 {"msg": "Unauthorized"}
    | Allowed(response: R)

  /** `user is not None and required_role in [role.name for role in user.roles]`. */
  predicate Permits(users: map<int, User>, userId: int, requiredRole: string) {
    userId in users && requiredRole in users[userId].roles
  }

  /**
   * The wrapper: denied unless the identity is a user holding the role;
   * otherwise the wrapped route is called with the same arguments and its
   * answer returned unchanged.
   */
  function RoleRequired<A, R>(db: Database, requiredRole: string, identity: Option<int>, route: A -> R, args: A)
    : (r: Access<R>)
    reads db
    ensures r == Unauthenticated <==> identity.None?
    ensures r == Forbidden <==>
            identity.Some? && (identity.value !in db.users || requiredRole !in db.users[identity.value].roles)
    ensures r.Allowed? <==>
            identity.Some? && identity.value in db.users && requiredRole in db.users[identity.value].roles
    ensures r.Allowed? ==> r.response == route(args)
  {
    match identity
    case None => Unauthenticated
    case Some(userId) =>
      if Permits(db.users, userId, requiredRole) then Allowed(route(args)) else Forbidden
  }

  /**
   * The decision looks only at which role names the user holds: reordering
   * or repeating the user's roles does not change it.
   */
  lemma PermitsIgnoresRoleOrder(users: map<int, User>, userId: int, requiredRole: string, roles: seq<string>)
    requires userId in users
    requires (set n | n in roles) == (set n | n in users[userId].roles)
    ensures Permits(users[userId := users[userId].(roles := roles)], userId, requiredRole)
            == Permits(users, userId, requiredRole)
  {
    var before := set n | n in users[userId].roles;
    assert requiredRole in roles <==> requiredRole in before;
  }
}
