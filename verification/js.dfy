/**
 The slice of JavaScript semantics the decision layer relies on: UTF-16
 strings, primitive values and arrays, truthiness of optional strings,
 strict equality, `Array.prototype.includes`, `String.prototype.includes`
 and the relational operators on strings.
 */
module Js {
  import opened Optional

  /** A UTF-16 code unit, what `charCodeAt` returns. */
  newtype CodeUnit = x: int | 0 <= x < 0x1_0000

  /** A JavaScript string: a sequence of UTF-16 code units. */
  type JsString = seq<CodeUnit>

  /** Code units of a Dafny string literal whose characters all lie in the Basic Multilingual Plane. */
  function Units(s: string): (r: JsString)
    ensures |r| == |s|
    ensures forall i :: 0 <= i < |s| && s[i] as int < 0x1_0000 ==> r[i] as int == s[i] as int
  {
    if |s| == 0 then [] else [((s[0] as int) % 0x1_0000) as CodeUnit] + Units(s[1..])
  }

  /** Truthiness of an optional string: `undefined` and `""` are both falsy. */
  predicate Truthy(o: Option<JsString>) {
    o.Some? && |o.value| > 0
  }

  /**
   A JavaScript value as it appears in a condition's `value` or in a
   context's custom attributes. Numbers are integers; every `List` stands
   for an array object of its own.
   */
  datatype Value =
    | Undefined
    | Null
    | Bool(b: bool)
    | Num(n: int)
    | Str(s: JsString)
    | List(items: seq<Value>)

  /** `a === b`. Two arrays are distinct objects, so a `List` is never strictly equal to anything. */
  predicate StrictEquals(a: Value, b: Value) {
    !a.List? && !b.List? && a == b
  }

  /** `xs.includes(x)`: SameValueZero, which is `===` in the absence of NaN. */
  function ArrayIncludes(xs: seq<Value>, x: Value): (r: bool)
    ensures r <==> exists i :: 0 <= i < |xs| && StrictEquals(xs[i], x)
  {
    if |xs| == 0 then false
    else StrictEquals(xs[0], x) || ArrayIncludes(xs[1..], x)
  }

  /** `t` occurs in `s` starting at code unit `j`. */
  predicate OccursAt(s: JsString, t: JsString, j: int) {
    0 <= j && j + |t| <= |s| && s[j..j + |t|] == t
  }

  /** Reference definition of substring containment. */
  ghost predicate IsSubstring(t: JsString, s: JsString) {
    exists j :: OccursAt(s, t, j)
  }

  /** Search for `t` in `s` starting at index `i`: some occurrence starts at `i` or later. */
  function StringIncludesFrom(s: JsString, t: JsString, i: nat): (r: bool)
    ensures r <==> exists j :: i <= j && OccursAt(s, t, j)
    decreases |s| - i
  {
    if i + |t| > |s| then
      assert forall j :: i <= j ==> !OccursAt(s, t, j);
      false
    else if s[i..i + |t|] == t then
      assert OccursAt(s, t, i);
      true
    else StringIncludesFrom(s, t, i + 1)
  }

  /** `s.includes(t)`. */
  function StringIncludes(s: JsString, t: JsString): (r: bool)
    ensures r <==> IsSubstring(t, s)
  {
    StringIncludesFrom(s, t, 0)
  }

  /** `a < b` on strings, comparing code units from the left; a proper prefix is smaller. */
  function StringLess(a: JsString, b: JsString): bool
    decreases |a|
  {
    if |b| == 0 then false
    else if |a| == 0 then true
    else if a[0] != b[0] then a[0] < b[0]
    else StringLess(a[1..], b[1..])
  }

  /** `a` and `b` first differ at index `k`, where `a` has the smaller code unit. */
  predicate DiffersFirstAt(a: JsString, b: JsString, k: int) {
    0 <= k < |a| && k < |b| && a[..k] == b[..k] && a[k] < b[k]
  }

  /** Reference definition of lexicographic order: a proper prefix, or smaller at the first difference. */
  ghost predicate LexLess(a: JsString, b: JsString) {
    (|a| < |b| && a == b[..|a|]) || exists k :: DiffersFirstAt(a, b, k)
  }

  lemma {:induction false} StringLessIsLexLess(a: JsString, b: JsString)
    ensures StringLess(a, b) <==> LexLess(a, b)
    decreases |a|
  {
    if |b| == 0 {
      assert !LexLess(a, b);
    } else if |a| == 0 {
      assert a == b[..0];
    } else if a[0] != b[0] {
      if a[0] < b[0] {
        assert DiffersFirstAt(a, b, 0);
      } else {
        assert forall k :: DiffersFirstAt(a, b, k) ==> k == 0;
      }
    } else {
      StringLessIsLexLess(a[1..], b[1..]);
      if LexLess(a[1..], b[1..]) {
        if |a[1..]| < |b[1..]| && a[1..] == b[1..][..|a[1..]|] {
          assert a == [a[0]] + a[1..];
          assert b[..|a|] == [b[0]] + b[1..][..|a[1..]|];
        } else {
          var k :| DiffersFirstAt(a[1..], b[1..], k);
          assert a[..k + 1] == [a[0]] + a[1..][..k];
          assert b[..k + 1] == [b[0]] + b[1..][..k];
          assert DiffersFirstAt(a, b, k + 1);
        }
      }
      if LexLess(a, b) {
        if |a| < |b| && a == b[..|a|] {
          assert a[1..] == b[1..][..|a[1..]|];
        } else {
          var k :| DiffersFirstAt(a, b, k);
          if k == 0 {
            assert false;
          }
          assert a[1..][..k - 1] == a[..k][1..];
          assert b[1..][..k - 1] == b[..k][1..];
          assert DiffersFirstAt(a[1..], b[1..], k - 1);
        }
      }
    }
  }

  /** String order is irreflexive and asymmetric, and exactly one of `a < b`, `a === b`, `b < a` holds. */
  lemma {:induction false} StringLessTrichotomy(a: JsString, b: JsString)
    ensures StringLess(a, b) || a == b || StringLess(b, a)
    ensures !(StringLess(a, b) && StringLess(b, a))
    ensures !StringLess(a, a)
    decreases |a|
  {
    if |a| > 0 && |b| > 0 && a[0] == b[0] {
      StringLessTrichotomy(a[1..], b[1..]);
      if a[1..] == b[1..] {
        assert a == [a[0]] + a[1..];
        assert b == [b[0]] + b[1..];
      }
    }
    if |a| > 0 {
      StringLessTrichotomy(a[1..], a[1..]);
    }
  }

  /** String order is transitive; with the lemma above it is a strict total order. */
  lemma {:induction false} StringLessTransitive(a: JsString, b: JsString, c: JsString)
    requires StringLess(a, b) && StringLess(b, c)
    ensures StringLess(a, c)
    decreases |a|
  {
    if |a| > 0 && a[0] == b[0] && b[0] == c[0] {
      StringLessTransitive(a[1..], b[1..], c[1..]);
    }
  }
}
