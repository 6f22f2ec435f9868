/**
  `authorizeRoles(...allowed)`: the route middleware that lets a request
  through to its handler, or answers 401 when the token carried no user or
  no role, or 403 when the role is not one of the allowed ones.
 */
module RoleGate {
  import opened Common

  datatype Decision = Next | Deny(status: Status)

  function AuthorizeRoles(allowed: seq<Role>, user: Option<Caller>): (d: Decision)
    ensures d == Deny(Unauthorized) <==> user.None? || user.value.role.None?
    ensures d == Deny(Forbidden) <==> user.Some? && user.value.role.Some? && user.value.role.value !in allowed
    ensures d == Next <==> user.Some? && user.value.role.Some? && user.value.role.value in allowed
    ensures d.Deny? ==> d.status == Unauthorized || d.status == Forbidden
  {
    match user
    case None => Deny(Unauthorized)
    case Some(c) =>
      match c.role
      case None => Deny(Unauthorized)
      case Some(role) => if role in allowed then Next else Deny(Forbidden)
  }

  /** A missing user or role is a 401 whatever the route allows, even every role. */
  lemma UnauthorizedBeforeForbidden(allowed: seq<Role>, user: Option<Caller>)
    requires user.None? || user.value.role.None?
    requires StudentRole in allowed && AdminRole in allowed && InstructorRole in allowed
    ensures AuthorizeRoles(allowed, user) == Deny(Unauthorized)
    ensures AuthorizeRoles([], user) == Deny(Unauthorized)
  {
  }

  /**
    A route guarded for a single role admits exactly the callers the
    controller's own `ensure*` guard admits; the two differ only in the
    status of a rejection (the guard always answers 403).
   */
  lemma SingleRoleAgreesWithEnsure(role: Role, user: Option<Caller>)
    ensures AuthorizeRoles([role], user) == Next <==> Ensure(user, role)
    ensures !Ensure(user, role) && user.Some? && user.value.role.Some? ==> AuthorizeRoles([role], user) == Deny(Forbidden)
  {
  }

  /** Allowing more roles never turns a pass into a denial. */
  lemma MoreRolesAdmitMore(allowed: seq<Role>, extra: seq<Role>, user: Option<Caller>)
    ensures AuthorizeRoles(allowed, user) == Next ==> AuthorizeRoles(allowed + extra, user) == Next
  {
  }
}
