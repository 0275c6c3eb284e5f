# Decision layer of the ConfigKits flags package, in Dafny

This project models the decision layer of `packages/flags/src`: the part
of ConfigKits that decides, for an evaluation context (user id, role,
environment, custom attributes), whether a feature is on, whether a
permission is granted, whether a declarative condition holds and which
A/B-test variant a user sees. Each manager is an immutable value: a
registry map plus the context (plus the assignment map for A/B tests).
Each operation is a pure function. An operation that changes state
returns the new manager, and `getVariant` returns the pair (result, new
manager).

Modules, leaf first:

- `Optional`: `Option`, standing for JavaScript's `undefined`.
- `Js`: the JavaScript semantics the source relies on.
  - Strings are sequences of UTF-16 code units.
  - `Value` covers the primitives and arrays.
  - It defines the truthiness of optional strings, `===`,
    `Array.prototype.includes`, `String.prototype.includes` and string `<`.
  - String `<` is proved equal to a reference lexicographic order and to be
    a strict total order.
- `Hash`: the shared hash primitive, `h := ToInt32(31*h + c)` over code
  units, starting from 0.
  - `SourceStepIsStep` proves that the source's literal step,
    `((h << 5) - h) + c` followed by `h & h`, is exactly that fold step.
  - `HashCodeUnits` is the source's loop, proved equal to the fold.
  - `FoldIsWrappedPolynomial` proves that wrapping after every step gives
    the same result as wrapping the unbounded base-31 polynomial once.
- `Types`: conditions, features and rollouts (`packages/core/src/types.ts`);
  the context, its partial merge, variants, tests and permissions
  (`packages/flags/src/types.ts`).
- `Registry`: `Map.prototype.set` applied to a sequence, left to right,
  where the last element with a given id wins.
- `FeatureFlags`, `Conditions`, `Permissions`, `ABTests`: the four managers.

Behaviour worth knowing, all as the code has it:

- Empty strings count as absent, following JavaScript truthiness:
  - An empty `userId` hashes as `"anonymous"` and bypasses the userIds gate.
  - An empty `environment` bypasses the environments gate and reads as
    `"production"` in an environment condition.
  - An empty `userRole` bypasses the role gate.
  - An empty stored assignment is ignored.
- An empty allowlist is still applied: it rejects every identified user,
  environment or role.
- The percentage gate rejects only when `bucket > percentage`.
  - Percentage 0 still admits bucket 0.
  - Percentages 99 and 100 both admit everybody.
  - For example, feature `f` with percentage 0 is off for user `u1`:
    `"f-u1"` hashes to 3085603, which is bucket 3.
- A `featureFlag` condition asks the flag manager, and the flag manager
  uses its own context, not the one passed to `evaluate`.
- A `permission` condition is always true.
- A `custom` condition with a non-empty `evaluator` name is always false.

More behaviours of the code:

- A `permission` condition is the constant `true`, marked as a placeholder
  (`packages/flags/src/ConditionEvaluator.ts:25-26`).
- `getVariant` returns a stored assignment whose variant is still listed
  (`packages/flags/src/ABTestManager.ts:35-42`) before `assignVariant` ever
  looks at the weights (`packages/flags/src/ABTestManager.ts:62-65`). So a test
  whose weights now sum to zero still returns its stored variant.
- The stored assignment is found by id with `Array.prototype.find`, so a repeat
  call returns the first listed variant with that id. When two variants share
  an id, that can be a different variant from the one first assigned.
- A named custom evaluator is not looked up: the condition is false
  (`packages/flags/src/ConditionEvaluator.ts:36-37`).

## Model

| member | source | states |
|---|---|---|
| Js.ArrayIncludes | packages/flags/src/ConditionEvaluator.ts:65 | `includes` is true iff some element is strictly equal to the value |
| Js.StringIncludesFrom | packages/flags/src/ConditionEvaluator.ts:67 | true iff the needle occurs at some position at or after the start index |
| Js.StringIncludes | packages/flags/src/ConditionEvaluator.ts:67 | `s.includes(t)` holds iff `t` is a substring of `s` (so the empty string is always found) |
| Js.StringLessIsLexLess | packages/flags/src/ConditionEvaluator.ts:56-63 | string `<` compares code units left to right and equals the reference lexicographic order (proper prefix, or smaller at the first difference) |
| Js.StringLessTrichotomy | packages/flags/src/ConditionEvaluator.ts:56-63 | string `<` is irreflexive and asymmetric, and any two strings are equal or ordered one way |
| Js.StringLessTransitive | packages/flags/src/ConditionEvaluator.ts:56-63 | string `<` is transitive, so with trichotomy it is a strict total order |
| Hash.ToInt32 | packages/flags/src/FeatureFlagManager.ts:95 | the result is in [-2^31, 2^31) and congruent to the input modulo 2^32 |
| Hash.Step | packages/flags/src/FeatureFlagManager.ts:94-95 | one hash step stays in signed 32-bit range |
| Hash.Fold | packages/flags/src/FeatureFlagManager.ts:91-96 | the fold over code units is always a signed 32-bit value |
| Hash.SourceStepIsStep | packages/flags/src/FeatureFlagManager.ts:94-95 | `((h << 5) - h) + c` followed by `h & h` equals `ToInt32(31*h + c)` for every 32-bit `h` |
| Hash.FoldIsWrappedPolynomial | packages/flags/src/FeatureFlagManager.ts:91-96 | the step-wise wrapped hash equals the signed 32-bit reading of the unbounded base-31 polynomial of the string |
| Hash.Abs | packages/flags/src/FeatureFlagManager.ts:97 | `Math.abs` returns the value or its negation, never negative |
| Hash.HashCodeUnits | packages/flags/src/ABTestManager.ts:88-93 | the source's `charCodeAt` loop (the same in both managers) computes the fold |
| Types.Merge | packages/flags/src/FeatureFlagManager.ts:82-84 | `{...ctx, ...patch}`: each supplied field (even one supplied as undefined) replaces the old one, and the others stay |
| Types.UserKey | packages/flags/src/FeatureFlagManager.ts:90 | the user id when it is non-empty, otherwise `"anonymous"` |
| Registry.PutAllUntouched | packages/flags/src/FeatureFlagManager.ts:27-29 | inserting a sequence leaves every id that none of its elements carries as it was |
| Registry.PutAllLastWins | packages/flags/src/FeatureFlagManager.ts:27-29 | after inserting a sequence, an id maps to the last element that carries it |
| Registry.PutAllContents | packages/flags/src/PermissionManager.ts:35-37 | both facts above, for all ids at once |
| FeatureFlags.New | packages/flags/src/FeatureFlagManager.ts:12-15 | a new manager has no features and the given context |
| FeatureFlags.GetFeature | packages/flags/src/FeatureFlagManager.ts:75-77 | returns the stored definition when the id is registered, and undefined otherwise |
| FeatureFlags.Register | packages/flags/src/FeatureFlagManager.ts:20-22 | afterwards `getFeature(f.id) == f`; every other id and the context are unchanged |
| FeatureFlags.RegisterMany | packages/flags/src/FeatureFlagManager.ts:27-29 | ids not in the list are unchanged; each listed id maps to its last occurrence |
| FeatureFlags.RegisterManyIsRepeatedRegister | packages/flags/src/FeatureFlagManager.ts:27-29 | `registerMany` is `register` applied left to right |
| FeatureFlags.UpdateContext | packages/flags/src/FeatureFlagManager.ts:82-84 | merges the partial context and leaves the registry alone |
| FeatureFlags.Clear | packages/flags/src/FeatureFlagManager.ts:103-105 | no feature is left, and the context is kept |
| FeatureFlags.HashUser | packages/flags/src/FeatureFlagManager.ts:89-98 | the bucket is in [0, 99] and equals the absolute 32-bit polynomial hash of `featureId + "-" + user`, mod 100 |
| FeatureFlags.IsEnabled | packages/flags/src/FeatureFlagManager.ts:34-70 | on iff registered, `enabled`, and (no rollout, or bucket ≤ percentage when given, and the userIds gate and the environments gate admit the context) |
| FeatureFlags.MissingOrDisabledIsOff | packages/flags/src/FeatureFlagManager.ts:35-42 | an unregistered or disabled feature is off in every context |
| FeatureFlags.NoRolloutIsOnEverywhere | packages/flags/src/FeatureFlagManager.ts:44-69 | an enabled feature without rollout is on in every context |
| FeatureFlags.PercentageEdges | packages/flags/src/FeatureFlagManager.ts:47-52 | percentages 99 and 100 never reject; percentage 0 admits exactly bucket 0 |
| FeatureFlags.EmptyAllowlist | packages/flags/src/FeatureFlagManager.ts:55-66 | an empty allowlist rejects every non-empty value and passes an absent or empty one |
| FeatureFlags.ClearedIsOff | packages/flags/src/FeatureFlagManager.ts:103-105 | after `clear` no feature is enabled |
| FeatureFlags.ExampleFold | packages/flags/src/FeatureFlagManager.ts:89-96 | the rollout string for feature `f` and user `u1` hashes to 3085603 |
| FeatureFlags.ZeroPercentExample | packages/flags/src/FeatureFlagManager.ts:47-52 | feature `f` at 0% for user `u1` lands in bucket 3 and is off |
| Conditions.ToNumber | packages/flags/src/ConditionEvaluator.ts:56-63 | undefined converts to NaN, null to 0, a number to itself |
| Conditions.Compare | packages/flags/src/ConditionEvaluator.ts:50-71 | `eq` is value equality on primitives and false for arrays; `in` is membership in an array; `contains` is substring on two strings; `gt`/`gte`/`lt`/`lte` are numeric order on numbers and lexicographic order on strings, and false with an undefined operand |
| Conditions.NeIsNotEq | packages/flags/src/ConditionEvaluator.ts:52-55 | `ne` is the exact negation of `eq` for every operand pair |
| Conditions.OrderingIsTotal | packages/flags/src/ConditionEvaluator.ts:56-63 | on two numbers or two strings exactly one of lt/eq/gt holds, `gte` is not-`lt` and `lte` is not-`gt` |
| Conditions.EnvironmentOf | packages/flags/src/ConditionEvaluator.ts:30 | the context's environment when non-empty, otherwise `"production"` |
| Conditions.Attribute | packages/flags/src/ConditionEvaluator.ts:41 | the custom attribute under the key, or undefined when there are no attributes or no such key |
| Conditions.Evaluate | packages/flags/src/ConditionEvaluator.ts:16-48 | a flag condition is the flag manager's answer; a permission condition is true; an environment condition compares the environment; a custom condition is false with a named evaluator and otherwise compares the attribute |
| Conditions.MissingOperatorIsEq | packages/flags/src/ConditionEvaluator.ts:17 | a condition without operator evaluates as with `eq` |
| Conditions.FlagConditionIgnoresOperands | packages/flags/src/ConditionEvaluator.ts:20-22 | a flag condition ignores operator, value, evaluator and the passed context |
| Conditions.EnvironmentDefaultsToProduction | packages/flags/src/ConditionEvaluator.ts:29-32 | an absent or empty environment evaluates exactly as `"production"` |
| Permissions.New | packages/flags/src/PermissionManager.ts:15-23 | no permissions; the injected flag manager, or an empty one with the same context |
| Permissions.GetPermission | packages/flags/src/PermissionManager.ts:70-72 | returns the stored permission when the id is registered, and undefined otherwise |
| Permissions.Register | packages/flags/src/PermissionManager.ts:28-30 | stores under the id, other ids unchanged, context and flag manager untouched |
| Permissions.RegisterMany | packages/flags/src/PermissionManager.ts:35-37 | ids not in the list are unchanged; each listed id maps to its last occurrence |
| Permissions.RegisterManyIsRepeatedRegister | packages/flags/src/PermissionManager.ts:35-37 | `registerMany` is `register` applied left to right |
| Permissions.AllPass | packages/flags/src/PermissionManager.ts:56-62 | the short-circuit loop is true iff every condition evaluates true |
| Permissions.HasPermission | packages/flags/src/PermissionManager.ts:42-65 | granted iff registered, the role gate admits the context's role, and every attached condition evaluates true |
| Permissions.ConditionOrderIrrelevant | packages/flags/src/PermissionManager.ts:56-62 | permuting the conditions does not change the answer |
| Permissions.DefaultManagerRejectsFlagConditions | packages/flags/src/PermissionManager.ts:21-22 | with the built-in flag manager every `featureFlag` condition is false |
| Permissions.UpdateContext | packages/flags/src/PermissionManager.ts:77-80 | merges the patch into both its own context and the flag manager's context; registries unchanged |
| Permissions.Clear | packages/flags/src/PermissionManager.ts:85-87 | afterwards no permission is registered or granted; context and flag manager (with its features) untouched |
| ABTests.New | packages/flags/src/ABTestManager.ts:12-16 | no tests, no assignments, the given context |
| ABTests.Register | packages/flags/src/ABTestManager.ts:21-23 | stores the test under its id, other ids unchanged, assignments untouched |
| ABTests.UpdateContext | packages/flags/src/ABTestManager.ts:100-102 | merges the partial context; tests and assignments unchanged |
| ABTests.Clear | packages/flags/src/ABTestManager.ts:107-110 | both tests and assignments become empty |
| ABTests.HashUser | packages/flags/src/ABTestManager.ts:86-95 | lies in [0, 2^31] and is the absolute 32-bit polynomial hash of `testId + ":" + user` |
| ABTests.HashDependsOnlyOnUser | packages/flags/src/ABTestManager.ts:87 | contexts with the same effective user id hash alike |
| ABTests.PrefixWeightMonotone | packages/flags/src/ABTestManager.ts:71-77 | cumulative weights never decrease |
| ABTests.FirstExceedingUnique | packages/flags/src/ABTestManager.ts:71-77 | at most one index is the first whose cumulative weight exceeds the normalised hash |
| ABTests.BucketIsInterval | packages/flags/src/ABTestManager.ts:71-77 | variant `k` is chosen for hash value `h` exactly when `h` lies in `[prefix(k), prefix(k+1))` |
| ABTests.Scan | packages/flags/src/ABTestManager.ts:71-77 | the loop stops at the first index whose cumulative weight exceeds the hash, and runs off the end only when the total is at most the hash |
| ABTests.AssignVariant | packages/flags/src/ABTestManager.ts:56-81 | null iff no variants or zero total; otherwise the variant at the first index whose prefix sum exceeds `hash % total`, which has positive weight; the fallback at line 80 is unreachable |
| ABTests.PickedHasWeight | packages/flags/src/ABTestManager.ts:72-76 | the selected index carries positive weight |
| ABTests.FindById | packages/flags/src/ABTestManager.ts:38 | `find` returns the first variant with the id, or nothing when none has it |
| ABTests.GetVariant | packages/flags/src/ABTestManager.ts:28-51 | null for an unknown or disabled test; a null result changes nothing; a variant is always one of the test's and its id is recorded under `testId:user`; no other assignment changes |
| ABTests.StoredAssignmentIsSticky | packages/flags/src/ABTestManager.ts:34-42 | a non-empty stored id is answered with the first listed variant carrying it, and nothing changes |
| ABTests.FreshAssignment | packages/flags/src/ABTestManager.ts:44-50 | without a usable stored id the result is the weighted choice |
| ABTests.NoWeightIsNull | packages/flags/src/ABTestManager.ts:44-48 | no variants or zero weight, and no usable stored id, gives null and no change |
| ABTests.RepeatIsStable | packages/flags/src/ABTestManager.ts:28-51 | asking twice with the same context returns variants with the same id, and the second call changes nothing |
| ABTests.OtherTestsDoNotInterfere | packages/flags/src/ABTestManager.ts:21-23 | registering a different test does not change the answer for this one |
| ABTests.ClearedIsNull | packages/flags/src/ABTestManager.ts:107-110 | after `clear` every lookup is null |

## Left out

- Configuration validation and parsing: `packages/core/src/validator.ts`, `schema.ts`
  and `parser.ts` are thin wrappers over a schema library and the JSON parser.
- The lifecycle manager, `packages/core/src/lifecycle.ts`: it fans out
  asynchronously over opaque callbacks.
- The React renderer, the component registry, the hooks, the playground
  and the documentation site: these are UI plumbing.
- JavaScript number semantics: percentages and weights are naturals and
  condition numbers are integers. Fractions, NaN, infinities and negative
  weights are not modelled.
- Conditions.Compare: for `gt`/`gte`/`lt`/`lte`, JavaScript coerces mixed
  operands (a string against a number, or an array). The model treats such
  pairs as incomparable, so all four are false, and no claim about them is
  made. It models exactly two cases:
  - strings against strings;
  - any mix of undefined, null, booleans and numbers, converted with
    ToNumber.
- Conditions.Compare: `===` on arrays compares object identity. The model
  treats every array operand as a distinct object, so it is never strictly
  equal to anything. Passing the same array object twice is not modelled.
  Plain objects as condition values are not modelled.
- The `default` branches of `evaluate` and `compare` (an unknown condition
  type or operator) cannot be reached: kinds and operators are closed
  datatypes here.
- Custom evaluators: the source has no registry for them, and a named
  evaluator simply yields false.
- Assignment-key collisions: the key is the string `testId:userId`, so ids
  that contain `:` can collide. The key is kept as that string, and no
  collision-freedom is claimed.
- Object sharing: the permission manager holds its flag manager as a value.
  Features registered later on an injected flag manager, through another
  reference, are not seen. Mutation of a context object by its owner after
  it was handed to a constructor is not modelled either.
- Prototype properties reached through `customAttributes?.[key]`, such as
  `"toString"`, are not modelled: only own keys are.
- `isEnabled` and `hasPermission` are read-only. In this model that holds by
  construction, because they are pure functions of the manager value, so
  there is no separate lemma for it.
- Concurrency: every operation is synchronous and single-threaded.
