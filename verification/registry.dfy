/** Registries keyed by id, as `Map.prototype.set` builds them. */
module Registry {
  import opened Js

  /**
   Inserts `xs` one after another, left to right, each under `key(x)`,
   overwriting whatever was stored under that id.
   */
  function PutAll<T>(m: map<JsString, T>, xs: seq<T>, key: T -> JsString): map<JsString, T>
    decreases |xs|
  {
    if |xs| == 0 then m else PutAll(m[key(xs[0]) := xs[0]], xs[1..], key)
  }

  /** An id that none of `xs` carries keeps its entry, or its absence. */
  lemma {:induction false} PutAllUntouched<T>(m: map<JsString, T>, xs: seq<T>, key: T -> JsString, id: JsString)
    requires forall i :: 0 <= i < |xs| ==> key(xs[i]) != id
    ensures id in PutAll(m, xs, key) <==> id in m
    ensures id in m ==> PutAll(m, xs, key)[id] == m[id]
    decreases |xs|
  {
    if |xs| > 0 {
      assert key(xs[0]) != id;
      assert forall i :: 0 <= i < |xs[1..]| ==> xs[1..][i] == xs[i + 1];
      PutAllUntouched(m[key(xs[0]) := xs[0]], xs[1..], key, id);
    }
  }

  /** The last element carrying an id is the one stored under it. */
  lemma {:induction false} PutAllLastWins<T>(m: map<JsString, T>, xs: seq<T>, key: T -> JsString, i: nat)
    requires i < |xs|
    requires forall j :: i < j < |xs| ==> key(xs[j]) != key(xs[i])
    ensures key(xs[i]) in PutAll(m, xs, key)
    ensures PutAll(m, xs, key)[key(xs[i])] == xs[i]
    decreases |xs|
  {
    var m' := m[key(xs[0]) := xs[0]];
    assert forall j :: 0 <= j < |xs[1..]| ==> xs[1..][j] == xs[j + 1];
    if i == 0 {
      PutAllUntouched(m', xs[1..], key, key(xs[0]));
    } else {
      PutAllLastWins(m', xs[1..], key, i - 1);
    }
  }

  /** Both facts above, for every id. */
  lemma PutAllContents<T>(m: map<JsString, T>, xs: seq<T>, key: T -> JsString)
    ensures forall id :: (forall i :: 0 <= i < |xs| ==> key(xs[i]) != id) ==>
      (id in PutAll(m, xs, key) <==> id in m) && (id in m ==> PutAll(m, xs, key)[id] == m[id])
    ensures forall i :: 0 <= i < |xs| && (forall j :: i < j < |xs| ==> key(xs[j]) != key(xs[i])) ==>
      key(xs[i]) in PutAll(m, xs, key) && PutAll(m, xs, key)[key(xs[i])] == xs[i]
  {
    forall id | forall i :: 0 <= i < |xs| ==> key(xs[i]) != id
      ensures (id in PutAll(m, xs, key) <==> id in m) && (id in m ==> PutAll(m, xs, key)[id] == m[id])
    {
      PutAllUntouched(m, xs, key, id);
    }
    forall i | 0 <= i < |xs| && (forall j :: i < j < |xs| ==> key(xs[j]) != key(xs[i]))
      ensures key(xs[i]) in PutAll(m, xs, key) && PutAll(m, xs, key)[key(xs[i])] == xs[i]
    {
      PutAllLastWins(m, xs, key, i);
    }
  }
}
