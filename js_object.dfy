/** A plain JavaScript object with string keys, as the component keeps its
    constructor inputs: the list of its own properties in `Object.keys` order,
    which for non-numeric keys is the order in which each key was first
    assigned. */
module JsObject {
  import opened Wrappers

  type Object<V> = seq<(string, V)>

  /** No key is listed twice, as in any real object. */
  predicate UniqueKeys<V>(m: Object<V>) {
    forall i, j :: 0 <= i < j < |m| ==> m[i].0 != m[j].0
  }

  /** `Object.keys(m)`. */
  function Keys<V>(m: Object<V>): seq<string> {
    seq(|m|, i requires 0 <= i < |m| => m[i].0)
  }

  /** The position of the first property named `k`, or -1. */
  function KeyIndex<V>(m: Object<V>, k: string): (i: int)
    ensures i == -1 <==> k !in Keys(m)
    ensures i != -1 ==> 0 <= i < |m| && m[i].0 == k
    ensures forall j :: 0 <= j < |m| && (i == -1 || j < i) ==> m[j].0 != k
  {
    if m == [] then -1
    else if m[0].0 == k then
      assert Keys(m)[0] == k;
      0
    else
      assert Keys(m) == [m[0].0] + Keys(m[1..]);
      var i := KeyIndex(m[1..], k);
      if i == -1 then -1 else i + 1
  }

  /** The characterisation of `KeyIndex` pins it down. */
  lemma KeyIndexAt<V>(m: Object<V>, k: string, i: int)
    requires 0 <= i < |m| && m[i].0 == k
    requires forall j :: 0 <= j < i ==> m[j].0 != k
    ensures KeyIndex(m, k) == i
  {
    assert Keys(m)[i] == k;
  }

  lemma KeyIndexAbsent<V>(m: Object<V>, k: string)
    requires forall j :: 0 <= j < |m| ==> m[j].0 != k
    ensures KeyIndex(m, k) == -1
  {
  }

  /** `m[k]`: the value of property `k`, or `undefined` (None). */
  function Lookup<V>(m: Object<V>, k: string): (r: Option<V>)
    ensures r.None? <==> k !in Keys(m)
    ensures r.Some? ==> exists i :: 0 <= i < |m| && m[i] == (k, r.value)
  {
    var i := KeyIndex(m, k);
    if i == -1 then None else Some(m[i].1)
  }

  /** `{...m, [k]: v}`: the same object with `k` bound to `v`. A key already
      present keeps its position; a new key goes last. */
  function Put<V>(m: Object<V>, k: string, v: V): (r: Object<V>)
    ensures Lookup(r, k) == Some(v)
    ensures forall k' :: k' != k ==> Lookup(r, k') == Lookup(m, k')
    ensures Keys(r) == if k in Keys(m) then Keys(m) else Keys(m) + [k]
    ensures UniqueKeys(m) ==> UniqueKeys(r)
  {
    var i := KeyIndex(m, k);
    var r := if i == -1 then m + [(k, v)] else m[i := (k, v)];
    var at := if i == -1 then |m| else i;
    assert r[at] == (k, v);
    assert forall j :: 0 <= j < |r| && j != at ==> r[j] == m[j];
    KeyIndexAt(r, k, at);
    forall k' | k' != k
      ensures Lookup(r, k') == Lookup(m, k')
    {
      var i' := KeyIndex(m, k');
      if i' == -1 {
        KeyIndexAbsent(r, k');
      } else {
        KeyIndexAt(r, k', i');
      }
    }
    assert Keys(r) == if i == -1 then Keys(m) + [k] else Keys(m);
    r
  }
}
