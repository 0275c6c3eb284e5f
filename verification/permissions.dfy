/**
 The permission manager: a registry of role-gated permissions, each also
 guarded by conditions that must all hold.
 */
module Permissions {
  import opened Optional
  import opened Js
  import opened Types
  import opened FeatureFlags
  import opened Conditions
  import Registry

  /**
   The manager's state. `flags` is the flag manager its condition
   evaluator consults for `featureFlag` conditions.
   */
  datatype PermissionManager = PermissionManager(
    permissions: map<JsString, Permission>,
    context: Context,
    flags: FlagManager)

  /** The constructor: an injected flag manager, or a fresh one sharing the context. */
  function New(ctx: Context, injected: Option<FlagManager>): (m: PermissionManager)
    ensures m.permissions == map[]
    ensures m.context == ctx
    ensures injected.Some? ==> m.flags == injected.value
    ensures injected.None? ==> m.flags.context == ctx && forall id :: GetFeature(m.flags, id) == None
  {
    PermissionManager(map[], ctx, injected.GetOr(FeatureFlags.New(ctx)))
  }

  /** `getPermission`: the stored permission, or `undefined`. */
  function GetPermission(m: PermissionManager, permissionId: JsString): (r: Option<Permission>)
    ensures r.Some? <==> permissionId in m.permissions
    ensures r.Some? ==> r.value == m.permissions[permissionId]
  {
    if permissionId in m.permissions then Some(m.permissions[permissionId]) else None
  }

  /** `register`: store under the permission's id, replacing an earlier one; nothing else changes. */
  function Register(m: PermissionManager, p: Permission): (r: PermissionManager)
    ensures GetPermission(r, p.id) == Some(p)
    ensures forall id :: id != p.id ==> GetPermission(r, id) == GetPermission(m, id)
    ensures r.context == m.context && r.flags == m.flags
  {
    m.(permissions := m.permissions[p.id := p])
  }

  function PermissionKey(p: Permission): JsString {
    p.id
  }

  /** `registerMany`: `register` each permission in order, so the last one with an id wins. */
  function RegisterMany(m: PermissionManager, ps: seq<Permission>): (r: PermissionManager)
    ensures forall id :: (forall i :: 0 <= i < |ps| ==> ps[i].id != id) ==> GetPermission(r, id) == GetPermission(m, id)
    ensures forall i :: 0 <= i < |ps| && (forall j :: i < j < |ps| ==> ps[j].id != ps[i].id) ==>
      GetPermission(r, ps[i].id) == Some(ps[i])
    ensures r.context == m.context && r.flags == m.flags
  {
    Registry.PutAllContents(m.permissions, ps, PermissionKey);
    m.(permissions := Registry.PutAll(m.permissions, ps, PermissionKey))
  }

  /** `registerMany` is the left-to-right sequence of `register` calls. */
  lemma RegisterManyIsRepeatedRegister(m: PermissionManager, ps: seq<Permission>)
    ensures |ps| == 0 ==> RegisterMany(m, ps) == m
    ensures |ps| > 0 ==> RegisterMany(m, ps) == RegisterMany(Register(m, ps[0]), ps[1..])
  {
  }

  /** The role gate: no role list, no (truthy) role, or a listed role. */
  predicate RoleAdmits(roles: Option<seq<JsString>>, role: Option<JsString>) {
    roles.None? || !Truthy(role) || role.value in roles.value
  }

  /** The condition loop: every condition evaluates true, checked front to back. */
  function AllPass(flags: FlagManager, cs: seq<Condition>, ctx: Context): (r: bool)
    ensures r <==> forall i :: 0 <= i < |cs| ==> Evaluate(flags, cs[i], ctx)
  {
    if |cs| == 0 then true
    else if !Evaluate(flags, cs[0], ctx) then false
    else
      assert forall i :: 1 <= i < |cs| ==> cs[i] == cs[1..][i - 1];
      AllPass(flags, cs[1..], ctx)
  }

  /** `hasPermission`: registered, admitted by the role gate, and every attached condition holds. */
  function HasPermission(m: PermissionManager, permissionId: JsString): (r: bool)
    ensures r <==>
      && permissionId in m.permissions
      && RoleAdmits(m.permissions[permissionId].roles, m.context.userRole)
      && (m.permissions[permissionId].conditions.Some? ==>
            forall c :: c in m.permissions[permissionId].conditions.value ==> Evaluate(m.flags, c, m.context))
  {
    if permissionId !in m.permissions then false
    else
      var p := m.permissions[permissionId];
      if p.roles.Some? && Truthy(m.context.userRole) && m.context.userRole.value !in p.roles.value then false
      else if p.conditions.Some? then AllPass(m.flags, p.conditions.value, m.context)
      else true
  }

  /** Reordering (or regrouping duplicates of) a permission's conditions does not change the answer. */
  lemma ConditionOrderIrrelevant(flags: FlagManager, cs: seq<Condition>, cs': seq<Condition>, ctx: Context)
    requires multiset(cs) == multiset(cs')
    ensures AllPass(flags, cs, ctx) == AllPass(flags, cs', ctx)
  {
    forall i | 0 <= i < |cs| ensures cs[i] in cs' {
      assert cs[i] in multiset(cs);
    }
    forall i | 0 <= i < |cs'| ensures cs'[i] in cs {
      assert cs'[i] in multiset(cs');
    }
  }

  /** With the built-in flag manager no feature is registered, so every `featureFlag` condition fails. */
  lemma DefaultManagerRejectsFlagConditions(ctx: Context, c: Condition, ctx': Context)
    requires c.kind == FlagCondition
    ensures !Evaluate(New(ctx, None).flags, c, ctx')
  {
  }

  /**
   `updateContext`: merge the partial context into the manager's context
   and into the flag manager's context; the registries are untouched.
   */
  function UpdateContext(m: PermissionManager, patch: ContextPatch): (r: PermissionManager)
    ensures r.permissions == m.permissions
    ensures r.context == Merge(m.context, patch)
    ensures r.flags.features == m.flags.features
    ensures r.flags.context == Merge(m.flags.context, patch)
  {
    m.(context := Merge(m.context, patch), flags := FeatureFlags.UpdateContext(m.flags, patch))
  }

  /** `clear`: forget every permission; the flag manager keeps its features. */
  function Clear(m: PermissionManager): (r: PermissionManager)
    ensures forall id :: GetPermission(r, id) == None
    ensures forall id :: !HasPermission(r, id)
    ensures r.context == m.context && r.flags == m.flags
  {
    m.(permissions := map[])
  }
}
