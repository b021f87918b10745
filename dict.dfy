/**
 * A JavaScript plain object with string keys: a map that also remembers the
 * order in which its keys were first inserted, which is the order
 * `Object.entries` visits them in. (Keys that look like array indices are
 * visited first by JavaScript; the repository keys of this model always
 * contain a '/', so that case never arises.)
 */
module Dict {
  import opened Common

  datatype RawDict<V> = RawDict(keys: seq<string>, values: map<string, V>) {
    /** Keys are distinct and are exactly the domain of the values. */
    predicate Valid()
    {
      && Distinct(keys)
      && (forall k :: k in values ==> k in keys)
      && (forall k :: k in keys ==> k in values)
    }
  }

  /** A well-formed object. */
  type Dict<V> = d: RawDict<V> | d.Valid() witness RawDict([], map[])

  /** `{}`. */
  function Empty<V>(): (d: Dict<V>)
    ensures d.keys == [] && d.values == map[]
  {
    RawDict([], map[])
  }

  /** `obj[k]`, with `undefined` as `None`. */
  function Get<V>(d: Dict<V>, k: string): (r: Option<V>)
    ensures r.Some? <==> k in d.values
    ensures r.Some? ==> r.value == d.values[k]
  {
    if k in d.values then Some(d.values[k]) else None
  }

  /** `obj[k] = v`: an existing key keeps its place, a new key goes last. */
  function Put<V>(d: Dict<V>, k: string, v: V): (r: Dict<V>)
    ensures r.values == d.values[k := v]
    ensures r.keys == if k in d.values then d.keys else d.keys + [k]
  {
    if k in d.values then RawDict(d.keys, d.values[k := v])
    else RawDict(d.keys + [k], d.values[k := v])
  }

  /** The keys of `keys` other than `k`, in order. */
  function Without(keys: seq<string>, k: string): (r: seq<string>)
    ensures forall x :: x in r <==> x in keys && x != k
    ensures |r| <= |keys|
  {
    if |keys| == 0 then []
    else if keys[0] == k then Without(keys[1..], k)
    else [keys[0]] + Without(keys[1..], k)
  }

  /** No key is listed twice. */
  predicate Distinct(keys: seq<string>)
  {
    forall i, j :: 0 <= i < j < |keys| ==> keys[i] != keys[j]
  }

  /** Dropping the last of distinct keys keeps them distinct, and the last is not among the rest. */
  lemma DistinctFront(keys: seq<string>)
    requires Distinct(keys) && |keys| > 0
    ensures Distinct(keys[..|keys| - 1])
    ensures keys[|keys| - 1] !in keys[..|keys| - 1]
  {
    var front := keys[..|keys| - 1];
    forall i | 0 <= i < |front| ensures front[i] != keys[|keys| - 1] {
      assert front[i] == keys[i];
    }
  }

  /** Removing a key from a list of distinct keys keeps them distinct. */
  lemma {:induction false} WithoutDistinct(keys: seq<string>, k: string)
    requires Distinct(keys)
    ensures Distinct(Without(keys, k))
  {
    if |keys| > 0 {
      var rest := Without(keys[1..], k);
      WithoutDistinct(keys[1..], k);
      assert Distinct(rest);
      assert keys[0] !in keys[1..];
      assert keys[0] !in rest;
      if keys[0] != k {
        var r := [keys[0]] + rest;
        assert Without(keys, k) == r;
        assert forall j :: 1 <= j < |r| ==> r[j] == rest[j - 1] && r[j] in rest;
      }
    }
  }

  /** `delete obj[k]`: the other keys keep their order. */
  function Delete<V>(d: Dict<V>, k: string): (r: Dict<V>)
    ensures r.values == d.values - {k}
    ensures r.keys == Without(d.keys, k)
  {
    WithoutDistinct(d.keys, k);
    var keys := Without(d.keys, k);
    var values := d.values - {k};
    RawDict(keys, values)
  }
}
