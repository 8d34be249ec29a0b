/**
 * An insertion-ordered dictionary keyed by integers, the behaviour of a Python
 * `dict`: keys are listed in the order they were first inserted, and assigning
 * to a key that is already present changes its value but not its position.
 */
module OrderedDict {

  datatype Dict<V> = Dict(keys: seq<int>, entries: map<int, V>)

  predicate Distinct(s: seq<int>) {
    forall i, j :: 0 <= i < j < |s| ==> s[i] != s[j]
  }

  /** The key list names every key of the map exactly once. */
  predicate Valid<V>(d: Dict<V>) {
    Distinct(d.keys) && d.entries.Keys == set k | k in d.keys
  }

  /** `{}`. */
  function Empty<V>(): (d: Dict<V>)
    ensures Valid(d) && d.keys == [] && d.entries == map[]
  {
    Dict([], map[])
  }

  /** `d[k] = v`. */
  function Put<V>(d: Dict<V>, k: int, v: V): (r: Dict<V>)
    requires Valid(d)
    ensures Valid(r)
    ensures r.entries == d.entries[k := v]
    ensures k in d.entries ==> r.keys == d.keys
    ensures k !in d.entries ==> r.keys == d.keys + [k]
  {
    if k in d.entries then Dict(d.keys, d.entries[k := v])
    else Dict(d.keys + [k], d.entries[k := v])
  }

  /** `list(d.values())`: the values in key order. */
  function Values<V>(d: Dict<V>): (r: seq<V>)
    requires Valid(d)
    ensures |r| == |d.keys|
    ensures forall i :: 0 <= i < |d.keys| ==> r[i] == d.entries[d.keys[i]]
  {
    seq(|d.keys|, i requires 0 <= i < |d.keys| => d.entries[d.keys[i]])
  }

  /** Assigning to a new key appends its value after all the others. */
  lemma ValuesPutNew<V>(d: Dict<V>, k: int, v: V)
    requires Valid(d) && k !in d.entries
    ensures Values(Put(d, k, v)) == Values(d) + [v]
  {
    var r := Put(d, k, v);
    forall i | 0 <= i < |d.keys|
      ensures Values(r)[i] == Values(d)[i]
    {
      assert d.keys[i] != k;
    }
  }

  /** Assigning to a key already present replaces its value in place. */
  lemma ValuesPutExisting<V>(d: Dict<V>, i: nat, v: V)
    requires Valid(d) && i < |d.keys|
    ensures Values(Put(d, d.keys[i], v)) == Values(d)[i := v]
  {
    var r := Put(d, d.keys[i], v);
    forall j | 0 <= j < |d.keys|
      ensures Values(r)[j] == Values(d)[i := v][j]
    {
      if j != i {
        assert d.keys[j] != d.keys[i];
      }
    }
  }
}
