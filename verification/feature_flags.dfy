/**
 The feature flag manager: a registry from feature id to definition plus
 the evaluation context, and the decision whether a feature is on.
 */
module FeatureFlags {
  import opened Optional
  import opened Js
  import opened Hash
  import opened Types
  import Registry

  datatype FlagManager = FlagManager(features: map<JsString, Feature>, context: Context)

  /** A new manager: no features, the given context. */
  function New(ctx: Context): (m: FlagManager)
    ensures forall id :: GetFeature(m, id) == None
    ensures m.context == ctx
  {
    FlagManager(map[], ctx)
  }

  /** `getFeature`: the stored definition, or `undefined`. */
  function GetFeature(m: FlagManager, featureId: JsString): (r: Option<Feature>)
    ensures r.Some? <==> featureId in m.features
    ensures r.Some? ==> r.value == m.features[featureId]
  {
    if featureId in m.features then Some(m.features[featureId]) else None
  }

  /** `register`: store `f` under its id, replacing any earlier definition with that id. */
  function Register(m: FlagManager, f: Feature): (r: FlagManager)
    ensures GetFeature(r, f.id) == Some(f)
    ensures forall id :: id != f.id ==> GetFeature(r, id) == GetFeature(m, id)
    ensures r.context == m.context
  {
    m.(features := m.features[f.id := f])
  }

  function FeatureKey(f: Feature): JsString {
    f.id
  }

  /** `registerMany`: `register` each feature in order, so the last one with an id wins. */
  function RegisterMany(m: FlagManager, fs: seq<Feature>): (r: FlagManager)
    ensures forall id :: (forall i :: 0 <= i < |fs| ==> fs[i].id != id) ==> GetFeature(r, id) == GetFeature(m, id)
    ensures forall i :: 0 <= i < |fs| && (forall j :: i < j < |fs| ==> fs[j].id != fs[i].id) ==>
      GetFeature(r, fs[i].id) == Some(fs[i])
    ensures r.context == m.context
  {
    Registry.PutAllContents(m.features, fs, FeatureKey);
    m.(features := Registry.PutAll(m.features, fs, FeatureKey))
  }

  /** `registerMany` is the left-to-right sequence of `register` calls. */
  lemma RegisterManyIsRepeatedRegister(m: FlagManager, fs: seq<Feature>)
    ensures |fs| == 0 ==> RegisterMany(m, fs) == m
    ensures |fs| > 0 ==> RegisterMany(m, fs) == RegisterMany(Register(m, fs[0]), fs[1..])
  {
  }

  /** `updateContext`: merge the partial context; the registry is untouched. */
  function UpdateContext(m: FlagManager, patch: ContextPatch): (r: FlagManager)
    ensures r.features == m.features
    ensures r.context == Merge(m.context, patch)
  {
    m.(context := Merge(m.context, patch))
  }

  /** `clear`: forget every feature; the context stays. */
  function Clear(m: FlagManager): (r: FlagManager)
    ensures forall id :: GetFeature(r, id) == None
    ensures r.context == m.context
  {
    m.(features := map[])
  }

  const Dash: JsString := Units("-")

  /** The string the rollout hash is taken of: `${featureId}-${userId || "anonymous"}`. */
  function RolloutKey(featureId: JsString, ctx: Context): JsString {
    featureId + Dash + UserKey(ctx)
  }

  /**
   `hashUser`: the user's rollout bucket for a feature, the absolute value
   of the signed 32-bit reading of the key's base-31 polynomial, modulo 100.
   */
  function HashUser(m: FlagManager, featureId: JsString): (r: nat)
    ensures r < 100
    ensures r == Abs(ToInt32(Polynomial(RolloutKey(featureId, m.context)))) % 100
  {
    FoldIsWrappedPolynomial(RolloutKey(featureId, m.context));
    Abs(Fold(RolloutKey(featureId, m.context))) % 100
  }

  /** The percentage gate lets the user through (or there is no percentage). */
  predicate PercentageAdmits(m: FlagManager, featureId: JsString, percentage: Option<nat>) {
    percentage.None? || HashUser(m, featureId) <= percentage.value
  }

  /** An allowlist gate lets `who` through: no list, no (truthy) value to check, or a listed value. */
  predicate AllowlistAdmits(list: Option<seq<JsString>>, who: Option<JsString>) {
    list.None? || !Truthy(who) || who.value in list.value
  }

  /** Every gate of a rollout lets the current context through. */
  predicate RolloutAdmits(m: FlagManager, featureId: JsString, rollout: Option<Rollout>) {
    rollout.None? ||
    (&& PercentageAdmits(m, featureId, rollout.value.percentage)
     && AllowlistAdmits(rollout.value.userIds, m.context.userId)
     && AllowlistAdmits(rollout.value.environments, m.context.environment))
  }

  /**
   `isEnabled`: registered, switched on, and no rollout gate rejects. The
   body keeps the source's order of early returns; the contract is the
   conjunction of the gates.
   */
  function IsEnabled(m: FlagManager, featureId: JsString): (r: bool)
    ensures r <==>
      && featureId in m.features
      && m.features[featureId].enabled
      && RolloutAdmits(m, featureId, m.features[featureId].rollout)
  {
    if featureId !in m.features then false
    else
      var f := m.features[featureId];
      if !f.enabled then false
      else if f.rollout.None? then true
      else
        var rollout := f.rollout.value;
        if rollout.percentage.Some? && HashUser(m, featureId) > rollout.percentage.value then false
        else if rollout.userIds.Some? && Truthy(m.context.userId)
          && m.context.userId.value !in rollout.userIds.value then false
        else if rollout.environments.Some? && Truthy(m.context.environment)
          && m.context.environment.value !in rollout.environments.value then false
        else true
  }

  /** A missing or switched-off feature is off in every context. */
  lemma MissingOrDisabledIsOff(m: FlagManager, featureId: JsString, ctx: Context)
    requires featureId !in m.features || !m.features[featureId].enabled
    ensures !IsEnabled(m.(context := ctx), featureId)
  {
  }

  /** A switched-on feature without rollout is on in every context. */
  lemma NoRolloutIsOnEverywhere(m: FlagManager, featureId: JsString, ctx: Context)
    requires featureId in m.features && m.features[featureId].enabled
    requires m.features[featureId].rollout.None?
    ensures IsEnabled(m.(context := ctx), featureId)
  {
  }

  /** Percentages 99 and 100 admit every bucket; percentage 0 still admits bucket 0. */
  lemma PercentageEdges(m: FlagManager, featureId: JsString, p: nat)
    ensures p >= 99 ==> PercentageAdmits(m, featureId, Some(p))
    ensures PercentageAdmits(m, featureId, Some(0)) <==> HashUser(m, featureId) == 0
  {
  }

  /** An empty allowlist still applies: it rejects every truthy value and passes a missing or empty one. */
  lemma EmptyAllowlist(who: Option<JsString>)
    ensures AllowlistAdmits(Some([]), who) <==> !Truthy(who)
  {
  }

  /** After `clear` nothing is enabled. */
  lemma ClearedIsOff(m: FlagManager, featureId: JsString)
    ensures !IsEnabled(Clear(m), featureId)
  {
  }

  /** The hash of "f-u1" (code units 102, 45, 117, 49), one step at a time. */
  lemma ExampleFold(ctx: Context)
    requires ctx.userId == Some([117, 49])
    ensures Fold(RolloutKey([102], ctx)) == 3085603
  {
    assert Dash == [45];
    var s1: JsString := [102];
    var s2: JsString := [102, 45];
    var s3: JsString := [102, 45, 117];
    var s4: JsString := [102, 45, 117, 49];
    assert RolloutKey([102], ctx) == s4;
    assert s4[..3] == s3 && s3[..2] == s2 && s2[..1] == s1 && s1[..0] == [];
    assert Fold(s1) == 102;
    assert Fold(s2) == 3207;
    assert Fold(s3) == 99534;
  }

  /**
   Feature `f` with `rollout: {percentage: 0}` for user `u1`: "f-u1" hashes
   to 3085603, bucket 3, so the feature is off.
   */
  lemma ZeroPercentExample(m: FlagManager, f: Feature)
    requires f.id == [102] && f.enabled && f.rollout == Some(Rollout(Some(0), None, None))
    requires m.context.userId == Some([117, 49])
    ensures HashUser(m, f.id) == 3
    ensures !IsEnabled(Register(m, f), f.id)
  {
    ExampleFold(m.context);
    var r := Register(m, f);
    assert HashUser(r, f.id) == HashUser(m, f.id);
    assert r.features[f.id] == f;
    assert !PercentageAdmits(r, f.id, Some(0));
  }
}
