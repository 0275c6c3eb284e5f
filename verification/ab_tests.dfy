/**
 The A/B test manager: weighted, hash-bucketed choice of a variant per
 user, remembered so that later lookups return the same variant.
 */
module ABTests {
  import opened Optional
  import opened Js
  import opened Hash
  import opened Types

  /** `assignments` maps `${testId}:${userId}` to the id of the chosen variant. */
  datatype ABTestManager = ABTestManager(
    tests: map<JsString, ABTest>,
    assignments: map<JsString, JsString>,
    context: Context)

  /** The constructor: no tests, no assignments. */
  function New(ctx: Context): (m: ABTestManager)
    ensures m.tests == map[] && m.assignments == map[] && m.context == ctx
  {
    ABTestManager(map[], map[], ctx)
  }

  /** `register`: store the test under its id, replacing an earlier one; assignments are kept. */
  function Register(m: ABTestManager, t: ABTest): (r: ABTestManager)
    ensures t.id in r.tests && r.tests[t.id] == t
    ensures forall id :: id != t.id ==> (id in r.tests <==> id in m.tests) && (id in m.tests ==> r.tests[id] == m.tests[id])
    ensures r.assignments == m.assignments && r.context == m.context
  {
    m.(tests := m.tests[t.id := t])
  }

  /** `updateContext`: merge the partial context; tests and assignments stay. */
  function UpdateContext(m: ABTestManager, patch: ContextPatch): (r: ABTestManager)
    ensures r.tests == m.tests && r.assignments == m.assignments
    ensures r.context == Merge(m.context, patch)
  {
    m.(context := Merge(m.context, patch))
  }

  /** `clear`: forget every test and every assignment. */
  function Clear(m: ABTestManager): (r: ABTestManager)
    ensures r.tests == map[] && r.assignments == map[]
    ensures r.context == m.context
  {
    m.(tests := map[], assignments := map[])
  }

  const Colon: JsString := Units(":")

  /** `${testId}:${userId || "anonymous"}`: both the assignment key and the string that is hashed. */
  function AssignmentKey(testId: JsString, ctx: Context): JsString {
    testId + Colon + UserKey(ctx)
  }

  /**
   `hashUser`: the absolute value of the 32-bit hash of the assignment key,
   that is, of the signed 32-bit reading of its base-31 polynomial.
   */
  function HashUser(testId: JsString, ctx: Context): (r: nat)
    ensures r <= TwoTo31
    ensures r == Abs(ToInt32(Polynomial(AssignmentKey(testId, ctx))))
  {
    FoldIsWrappedPolynomial(AssignmentKey(testId, ctx));
    Abs(Fold(AssignmentKey(testId, ctx)))
  }

  /** The hash sees only the test id and the effective user id, nothing else of the context. */
  lemma HashDependsOnlyOnUser(testId: JsString, c1: Context, c2: Context)
    requires UserKey(c1) == UserKey(c2)
    ensures HashUser(testId, c1) == HashUser(testId, c2)
  {
  }

  /** Sum of the weights of the first `i` variants. */
  function PrefixWeight(vs: seq<Variant>, i: nat): nat
    requires i <= |vs|
  {
    if i == 0 then 0 else PrefixWeight(vs, i - 1) + vs[i - 1].weight
  }

  /** `variants.reduce((sum, v) => sum + v.weight, 0)`. */
  function TotalWeight(vs: seq<Variant>): nat {
    PrefixWeight(vs, |vs|)
  }

  /** Prefix sums never decrease. */
  lemma {:induction false} PrefixWeightMonotone(vs: seq<Variant>, i: nat, j: nat)
    requires i <= j <= |vs|
    ensures PrefixWeight(vs, i) <= PrefixWeight(vs, j)
    decreases j
  {
    if i < j {
      PrefixWeightMonotone(vs, i, j - 1);
    }
  }

  /**
   The source's cumulative-weight loop from index `i` on, with `cum` the
   weight accumulated so far (not yet above `h`): the first index whose
   prefix sum exceeds `h`.
   */
  function Scan(vs: seq<Variant>, h: int, i: nat, cum: nat): (k: Option<nat>)
    requires i <= |vs| && cum == PrefixWeight(vs, i) && cum <= h
    ensures k.Some? ==> i <= k.value < |vs| && h < PrefixWeight(vs, k.value + 1)
    ensures k.Some? ==> forall j :: i < j <= k.value ==> PrefixWeight(vs, j) <= h
    ensures k.None? ==> TotalWeight(vs) <= h
    decreases |vs| - i
  {
    if i == |vs| then None
    else
      var cum' := cum + vs[i].weight;
      if h < cum' then Some(i)
      else Scan(vs, h, i + 1, cum')
  }

  /** `k` is the first index whose prefix sum exceeds `h`. */
  predicate FirstExceeding(vs: seq<Variant>, h: int, k: nat) {
    && k < |vs|
    && h < PrefixWeight(vs, k + 1)
    && forall j :: 0 < j <= k ==> PrefixWeight(vs, j) <= h
  }

  /**
   `assignVariant`: null for no variants or zero total weight, otherwise
   the variant at the first index whose prefix sum exceeds
   `hash % totalWeight`. That variant has positive weight, and the
   source's fallback to the first variant is never reached.
   */
  function AssignVariant(t: ABTest, ctx: Context): (r: Option<Variant>)
    ensures r.None? <==> |t.variants| == 0 || TotalWeight(t.variants) == 0
    ensures r.Some? ==>
      exists k: nat :: FirstExceeding(t.variants, HashUser(t.id, ctx) % TotalWeight(t.variants), k)
                  && r.value == t.variants[k]
    ensures r.Some? ==> r.value.weight > 0
  {
    var vs := t.variants;
    if |vs| == 0 then None
    else if TotalWeight(vs) == 0 then None
    else
      var h := HashUser(t.id, ctx) % TotalWeight(vs);
      match Scan(vs, h, 0, 0)
      case Some(k) =>
        assert FirstExceeding(vs, h, k);
        PickedHasWeight(vs, h, k);
        Some(vs[k])
      case None =>
        // the source returns `variants[0]` here; the scan always finds an index
        assert false;
        None
  }

  /** At most one index is the first whose prefix sum exceeds `h`: the weighted choice is well defined. */
  lemma FirstExceedingUnique(vs: seq<Variant>, h: int, k1: nat, k2: nat)
    requires FirstExceeding(vs, h, k1) && FirstExceeding(vs, h, k2)
    ensures k1 == k2
  {
  }

  /**
   Variant `k` owns the half-open bucket [PrefixWeight(k), PrefixWeight(k + 1))
   of hash values: it is chosen for `h` exactly when `h` falls in it.
   */
  lemma BucketIsInterval(vs: seq<Variant>, h: int, k: nat)
    requires 0 <= h && k < |vs|
    ensures FirstExceeding(vs, h, k) <==> PrefixWeight(vs, k) <= h < PrefixWeight(vs, k + 1)
  {
    if PrefixWeight(vs, k) <= h < PrefixWeight(vs, k + 1) {
      forall j | 0 < j <= k ensures PrefixWeight(vs, j) <= h {
        PrefixWeightMonotone(vs, j, k);
      }
    }
  }

  /** The first index whose prefix sum exceeds a non-negative `h` holds positive weight. */
  lemma PickedHasWeight(vs: seq<Variant>, h: int, k: nat)
    requires 0 <= h && FirstExceeding(vs, h, k)
    ensures vs[k].weight > 0
  {
    assert PrefixWeight(vs, k + 1) == PrefixWeight(vs, k) + vs[k].weight;
    if k > 0 {
      assert PrefixWeight(vs, k) <= h;
    }
  }

  /** `variants.find((v) => v.id === id)`: the index of the first variant with that id. */
  function FindById(vs: seq<Variant>, id: JsString): (k: Option<nat>)
    ensures k.Some? ==> k.value < |vs| && vs[k.value].id == id
    ensures k.Some? ==> forall j :: 0 <= j < k.value ==> vs[j].id != id
    ensures k.None? ==> forall j :: 0 <= j < |vs| ==> vs[j].id != id
  {
    if |vs| == 0 then None
    else if vs[0].id == id then Some(0)
    else
      var k := FindById(vs[1..], id);
      if k.Some? then Some(k.value + 1) else None
  }

  /** The stored assignment for this test and user, when it is truthy and names a current variant. */
  function StickyIndex(m: ABTestManager, t: ABTest, key: JsString): Option<nat> {
    if key in m.assignments && |m.assignments[key]| > 0 then FindById(t.variants, m.assignments[key])
    else None
  }

  /** `getVariant`: the chosen variant (or null) and the manager afterwards. */
  function GetVariant(m: ABTestManager, testId: JsString): (res: (Option<Variant>, ABTestManager))
    // only the assignment under this test's key may change
    ensures res.1.tests == m.tests && res.1.context == m.context
    ensures forall k :: k != AssignmentKey(testId, m.context) ==>
      (k in res.1.assignments <==> k in m.assignments) && (k in m.assignments ==> res.1.assignments[k] == m.assignments[k])
    // unknown or disabled tests yield null
    ensures testId !in m.tests || !m.tests[testId].enabled ==> res.0 == None && res.1 == m
    // a null result records nothing
    ensures res.0.None? ==> res.1 == m
    // a variant is returned only together with a record of its id
    ensures res.0.Some? ==>
      && testId in m.tests
      && res.0.value in m.tests[testId].variants
      && AssignmentKey(testId, m.context) in res.1.assignments
      && res.1.assignments[AssignmentKey(testId, m.context)] == res.0.value.id
  {
    if testId !in m.tests || !m.tests[testId].enabled then (None, m)
    else
      var t := m.tests[testId];
      var key := AssignmentKey(testId, m.context);
      var sticky := StickyIndex(m, t, key);
      if sticky.Some? then (Some(t.variants[sticky.value]), m)
      else
        var v := AssignVariant(t, m.context);
        if v.Some? then (v, m.(assignments := m.assignments[key := v.value.id]))
        else (None, m)
  }

  /**
   A stored id naming a current variant is honoured: the result is the
   first variant with that id, and nothing changes.
   */
  lemma StoredAssignmentIsSticky(m: ABTestManager, testId: JsString, k: nat)
    requires testId in m.tests && m.tests[testId].enabled
    requires AssignmentKey(testId, m.context) in m.assignments
    requires var id := m.assignments[AssignmentKey(testId, m.context)];
      && |id| > 0 && k < |m.tests[testId].variants| && m.tests[testId].variants[k].id == id
      && forall j :: 0 <= j < k ==> m.tests[testId].variants[j].id != id
    ensures GetVariant(m, testId) == (Some(m.tests[testId].variants[k]), m)
  {
    var t := m.tests[testId];
    var key := AssignmentKey(testId, m.context);
    assert FindById(t.variants, m.assignments[key]) == Some(k);
  }

  /** With no usable stored id, the weighted choice is made and recorded, overwriting any stale id. */
  lemma FreshAssignment(m: ABTestManager, testId: JsString)
    requires testId in m.tests && m.tests[testId].enabled
    requires StickyIndex(m, m.tests[testId], AssignmentKey(testId, m.context)).None?
    ensures GetVariant(m, testId).0 == AssignVariant(m.tests[testId], m.context)
  {
  }

  /** Zero total weight and no usable stored id: null. (A usable stored id still wins.) */
  lemma NoWeightIsNull(m: ABTestManager, testId: JsString)
    requires testId in m.tests && m.tests[testId].enabled
    requires |m.tests[testId].variants| == 0 || TotalWeight(m.tests[testId].variants) == 0
    requires StickyIndex(m, m.tests[testId], AssignmentKey(testId, m.context)).None?
    ensures GetVariant(m, testId) == (None, m)
  {
  }

  /** Asking again with the same context gives a variant with the same id and changes nothing more. */
  lemma RepeatIsStable(m: ABTestManager, testId: JsString)
    ensures var (v1, m1) := GetVariant(m, testId);
      var (v2, m2) := GetVariant(m1, testId);
      v1.Some? ==> v2.Some? && v2.value.id == v1.value.id && m2 == m1
  {
    var (v1, m1) := GetVariant(m, testId);
    if v1.Some? {
      var t := m.tests[testId];
      var key := AssignmentKey(testId, m.context);
      assert m1.tests == m.tests && m1.context == m.context;
      assert key in m1.assignments && m1.assignments[key] == v1.value.id;
      if |v1.value.id| > 0 {
        var k :| 0 <= k < |t.variants| && t.variants[k] == v1.value;
        assert StickyIndex(m1, t, key).Some?;
      } else {
        assert StickyIndex(m, t, key).None?;
        assert StickyIndex(m1, t, key).None?;
        assert m1.assignments[key := v1.value.id] == m1.assignments;
      }
    }
  }

  /** Registering another test in between does not change the answer for this one. */
  lemma OtherTestsDoNotInterfere(m: ABTestManager, testId: JsString, other: ABTest)
    requires other.id != testId
    ensures GetVariant(Register(m, other), testId).0 == GetVariant(m, testId).0
  {
  }

  /** After `clear` every lookup is null. */
  lemma ClearedIsNull(m: ABTestManager, testId: JsString)
    ensures GetVariant(Clear(m), testId).0 == None
  {
  }
}
