/**
 The records the decision layer works on: conditions and feature
 definitions from the configuration document, and the evaluation context,
 A/B tests and permissions of the flags package.
 */
module Types {
  import opened Optional
  import opened Js

  /** The eight comparison operators of a condition. */
  datatype Operator = Eq | Ne | Gt | Gte | Lt | Lte | In | Contains

  /** What a condition checks: `featureFlag`, `permission`, `environment` or `custom`. */
  datatype ConditionKind = FlagCondition | PermissionCondition | EnvironmentCondition | CustomCondition

  datatype Condition = Condition(
    kind: ConditionKind,
    key: JsString,
    operator: Option<Operator>,
    value: Value,
    evaluator: Option<JsString>)

  /** The optional rollout policy of a feature; each part is a separate gate. */
  datatype Rollout = Rollout(
    percentage: Option<nat>,
    userIds: Option<seq<JsString>>,
    environments: Option<seq<JsString>>)

  datatype Feature = Feature(
    id: JsString,
    name: JsString,
    enabled: bool,
    rollout: Option<Rollout>,
    metadata: Option<map<JsString, Value>>)

  /** Who is asking and where: every field may be missing. */
  datatype Context = Context(
    userId: Option<JsString>,
    userRole: Option<JsString>,
    environment: Option<JsString>,
    customAttributes: Option<map<JsString, Value>>)

  const EmptyContext: Context := Context(None, None, None, None)

  /** One field of a partial context: not mentioned, or given (possibly as `undefined`). */
  datatype Patch<T> = Keep | Assign(value: Option<T>) {
    function Apply(current: Option<T>): Option<T> {
      match this
      case Keep => current
      case Assign(v) => v
    }
  }

  datatype ContextPatch = ContextPatch(
    userId: Patch<JsString>,
    userRole: Patch<JsString>,
    environment: Patch<JsString>,
    customAttributes: Patch<map<JsString, Value>>)

  /** `{ ...ctx, ...patch }`: a field of the patch replaces the field of the context, the rest stay. */
  function Merge(ctx: Context, patch: ContextPatch): (r: Context)
    ensures patch.userId.Keep? ==> r.userId == ctx.userId
    ensures patch.userId.Assign? ==> r.userId == patch.userId.value
    ensures patch.userRole.Keep? ==> r.userRole == ctx.userRole
    ensures patch.userRole.Assign? ==> r.userRole == patch.userRole.value
    ensures patch.environment.Keep? ==> r.environment == ctx.environment
    ensures patch.environment.Assign? ==> r.environment == patch.environment.value
    ensures patch.customAttributes.Keep? ==> r.customAttributes == ctx.customAttributes
    ensures patch.customAttributes.Assign? ==> r.customAttributes == patch.customAttributes.value
  {
    Context(
      patch.userId.Apply(ctx.userId),
      patch.userRole.Apply(ctx.userRole),
      patch.environment.Apply(ctx.environment),
      patch.customAttributes.Apply(ctx.customAttributes))
  }

  const Anonymous: JsString := Units("anonymous")

  /** `context.userId || "anonymous"`. */
  function UserKey(ctx: Context): (r: JsString)
    ensures Truthy(ctx.userId) ==> r == ctx.userId.value
    ensures !Truthy(ctx.userId) ==> r == Anonymous
  {
    if Truthy(ctx.userId) then ctx.userId.value else Anonymous
  }

  datatype Variant = Variant(
    id: JsString,
    name: JsString,
    weight: nat,
    config: Option<map<JsString, Value>>)

  datatype ABTest = ABTest(
    id: JsString,
    name: JsString,
    variants: seq<Variant>,
    enabled: bool)

  datatype Permission = Permission(
    id: JsString,
    name: JsString,
    roles: Option<seq<JsString>>,
    conditions: Option<seq<Condition>>)
}
