/** The role predicates of bot/permissions.py. `has_role(r)` and
    `has_any_role(rs)` build a predicate over users; here the predicate and
    its argument are taken together. */
module Permissions {
  import opened Wrappers

  datatype Role = Role(id: int)

  /** A user as the predicates see it: `roles` is `None` when the object has
      no `roles` attribute (a plain user outside a server). */
  datatype User = User(roles: Option<seq<Role>>)

  /** The server's administrator role. */
  const AdminRoleId: int := 765320566739435550

  /** `any(role_id == role.id for role in roles)`. */
  function AnyRoleIs(roles: seq<Role>, roleId: int): (b: bool)
    ensures b <==> exists i :: 0 <= i < |roles| && roles[i].id == roleId
  {
    if |roles| == 0 then false
    else
      assert forall i :: 0 < i < |roles| ==> roles[i] == roles[1..][i - 1];
      roles[0].id == roleId || AnyRoleIs(roles[1..], roleId)
  }

  /** `any((role.id in role_id_set) for role in roles)`. */
  function AnyRoleIn(roles: seq<Role>, roleIds: set<int>): (b: bool)
    ensures b <==> exists i :: 0 <= i < |roles| && roles[i].id in roleIds
  {
    if |roles| == 0 then false
    else
      assert forall i :: 0 < i < |roles| ==> roles[i] == roles[1..][i - 1];
      roles[0].id in roleIds || AnyRoleIn(roles[1..], roleIds)
  }

  /** `has_role(roleId)(user)`. */
  function HasRole(roleId: int, user: User): (b: bool)
    ensures user.roles.None? ==> !b
    ensures user.roles.Some? ==> (b <==> exists i :: 0 <= i < |user.roles.value| && user.roles.value[i].id == roleId)
  {
    match user.roles
    case None => false
    case Some(roles) => AnyRoleIs(roles, roleId)
  }

  /** `has_any_role(roleIds)(user)`: the list is turned into a set first. */
  function HasAnyRole(roleIds: seq<int>, user: User): (b: bool)
    ensures user.roles.None? ==> !b
    ensures user.roles.Some? ==> (b <==> exists i :: 0 <= i < |user.roles.value| && user.roles.value[i].id in roleIds)
  {
    var roleIdSet := set r | r in roleIds;
    match user.roles
    case None => false
    case Some(roles) => AnyRoleIn(roles, roleIdSet)
  }

  /** `is_admin`. */
  function IsAdmin(user: User): (b: bool)
    ensures b <==> user.roles.Some? && exists i :: 0 <= i < |user.roles.value| && user.roles.value[i].id == AdminRoleId
  {
    HasRole(AdminRoleId, user)
  }

  /** With no role ids, nobody qualifies. */
  lemma HasAnyRoleEmpty(user: User)
    ensures !HasAnyRole([], user)
  {
  }

  /** `has_any_role([r])` and `has_role(r)` agree on every user. */
  lemma HasAnyRoleSingleton(roleId: int, user: User)
    ensures HasAnyRole([roleId], user) == HasRole(roleId, user)
  {
  }

  /** Only the set of listed ids matters: reordering or repeating them
      changes nothing. */
  lemma HasAnyRoleSetSemantics(roleIds: seq<int>, roleIds': seq<int>, user: User)
    requires forall r :: r in roleIds <==> r in roleIds'
    ensures HasAnyRole(roleIds, user) == HasAnyRole(roleIds', user)
  {
  }

  /** `has_any_role` holds exactly when `has_role` holds for one of the ids. */
  lemma HasAnyRoleIsSomeHasRole(roleIds: seq<int>, user: User)
    ensures HasAnyRole(roleIds, user) <==> exists j :: 0 <= j < |roleIds| && HasRole(roleIds[j], user)
  {
  }
}
