/**
 The string hash both managers use to bucket users: starting from 0, each
 UTF-16 code unit `c` turns `h` into the signed 32-bit reading of
 `31 * h + c`; the managers then take the absolute value.
 */
module Hash {
  import opened Js

  const TwoTo32: int := 0x1_0000_0000
  const TwoTo31: int := 0x8000_0000

  /** ECMAScript's ToInt32: the unique value in [-2^31, 2^31) congruent to `x` modulo 2^32. */
  function ToInt32(x: int): (r: int)
    ensures -TwoTo31 <= r < TwoTo31
    ensures r % TwoTo32 == x % TwoTo32
  {
    var m := x % TwoTo32;
    if m < TwoTo31 then m else m - TwoTo32
  }

  /** ToInt32 depends only on the residue modulo 2^32. */
  lemma ToInt32Congruent(x: int, y: int)
    requires x % TwoTo32 == y % TwoTo32
    ensures ToInt32(x) == ToInt32(y)
  {
  }

  /** A value already in 32-bit signed range is left as it is. */
  lemma ToInt32OfInt32(x: int)
    requires -TwoTo31 <= x < TwoTo31
    ensures ToInt32(x) == x
  {
  }

  /** `x << 5` in ECMAScript: shift the 32-bit two's complement of `x` and read the result as signed. */
  function ShiftLeft5(x: int): int {
    ToInt32(ToInt32(x) * 32)
  }

  /** `x & x` in ECMAScript: both operands go through ToInt32 and a value ANDed with itself is unchanged. */
  function AndSelf(x: int): int {
    ToInt32(x)
  }

  /** One step of the hash: `31 * h + c` wrapped to a signed 32-bit integer. */
  function Step(h: int, c: CodeUnit): (r: int)
    ensures -TwoTo31 <= r < TwoTo31
  {
    ToInt32(31 * h + c as int)
  }

  /** The hash as a left fold of `Step` over the code units of `s`. */
  function Fold(s: JsString): (h: int)
    ensures -TwoTo31 <= h < TwoTo31
  {
    if |s| == 0 then 0 else Step(Fold(s[..|s| - 1]), s[|s| - 1])
  }

  /** The hash computed without wrap-around: Horner evaluation of `s` as a base-31 number. */
  function Polynomial(s: JsString): int {
    if |s| == 0 then 0 else 31 * Polynomial(s[..|s| - 1]) + s[|s| - 1] as int
  }

  lemma AddMultiple(x: int, k: int)
    ensures (x + TwoTo32 * k) % TwoTo32 == x % TwoTo32
  {
  }

  lemma CongruentAffine(a: int, b: int, d: int)
    requires a % TwoTo32 == b % TwoTo32
    ensures (31 * a + d) % TwoTo32 == (31 * b + d) % TwoTo32
  {
    var k := a / TwoTo32 - b / TwoTo32;
    assert a == b + TwoTo32 * k;
    assert 31 * a + d == 31 * b + d + TwoTo32 * (31 * k);
    AddMultiple(31 * b + d, 31 * k);
  }

  /** The source's step `((h << 5) - h) + c` followed by `h & h` is exactly `Step`. */
  lemma SourceStepIsStep(h: int, c: CodeUnit)
    requires -TwoTo31 <= h < TwoTo31
    ensures AndSelf(ShiftLeft5(h) - h + c as int) == Step(h, c)
  {
    ToInt32OfInt32(h);
    var s := ToInt32(h * 32);
    var k := s / TwoTo32 - (h * 32) / TwoTo32;
    assert s == h * 32 + TwoTo32 * k;
    AddMultiple(31 * h + c as int, k);
    ToInt32Congruent(s - h + c as int, 31 * h + c as int);
  }

  /** Wrapping after every step gives the same 32 bits as wrapping once at the end. */
  lemma {:induction false} FoldIsWrappedPolynomial(s: JsString)
    ensures Fold(s) == ToInt32(Polynomial(s))
    ensures Fold(s) % TwoTo32 == Polynomial(s) % TwoTo32
  {
    if |s| > 0 {
      var p := s[..|s| - 1];
      var c := s[|s| - 1] as int;
      FoldIsWrappedPolynomial(p);
      CongruentAffine(Fold(p), Polynomial(p), c);
      ToInt32Congruent(31 * Fold(p) + c, Polynomial(s));
    }
  }

  /** `Math.abs` of a 32-bit hash; note that |-2^31| = 2^31. */
  function Abs(x: int): (r: nat)
    ensures r == x || r == -x
  {
    if x < 0 then -x else x
  }

  /** The source's loop over `charCodeAt`, step for step. */
  method HashCodeUnits(s: JsString) returns (h: int)
    ensures h == Fold(s)
  {
    h := 0;
    var i := 0;
    while i < |s|
      invariant 0 <= i <= |s|
      invariant h == Fold(s[..i])
    {
      var c := s[i];
      SourceStepIsStep(h, c);
      h := ShiftLeft5(h) - h + c as int;
      h := AndSelf(h);
      assert s[..i + 1][..i] == s[..i];
      i := i + 1;
    }
    assert s[..|s|] == s;
  }
}
