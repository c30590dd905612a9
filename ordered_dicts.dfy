/**
 * Python's insertion-ordered `dict`, as far as the dict comprehension
 * `{key(x): x for x in xs}` uses it: a key keeps the position of its first
 * insertion, and its value is the last item inserted under it.
 */
module OrderedDicts {

  datatype Dict<V> = Dict(keys: seq<string>, vals: map<string, V>)

  ghost predicate Distinct(ks: seq<string>) {
    forall i, j :: 0 <= i < j < |ks| ==> ks[i] != ks[j]
  }

  /** The keys are listed once each, and exactly the keys have values. */
  ghost predicate Valid<V>(d: Dict<V>) {
    Distinct(d.keys) && (forall k :: k in d.vals <==> k in d.keys)
  }

  /** The index of the last item of `xs` whose key is `k`, or -1 when there is none. */
  ghost function LastIndex<V>(xs: seq<V>, key: V -> string, k: string): (r: int)
    ensures -1 <= r < |xs|
    ensures r >= 0 ==> key(xs[r]) == k && forall j :: r < j < |xs| ==> key(xs[j]) != k
    ensures r < 0 ==> forall j :: 0 <= j < |xs| ==> key(xs[j]) != k
  {
    if xs == [] then -1
    else if key(xs[|xs| - 1]) == k then |xs| - 1
    else LastIndex(xs[..|xs| - 1], key, k)
  }

  /** `d[k] = v`: a new key goes to the end, an existing key keeps its place. */
  function Put<V>(d: Dict<V>, k: string, v: V): (r: Dict<V>)
    ensures Valid(d) ==> Valid(r)
    ensures r.vals == d.vals[k := v]
    ensures k in d.vals ==> r.keys == d.keys
    ensures k !in d.vals ==> r.keys == d.keys + [k]
  {
    if k in d.vals then Dict(d.keys, d.vals[k := v]) else Dict(d.keys + [k], d.vals[k := v])
  }

  /** `{key(x): x for x in xs}` */
  function FromSeq<V>(xs: seq<V>, key: V -> string): (d: Dict<V>)
    ensures Valid(d)
    ensures |d.keys| <= |xs|
  {
    if xs == [] then Dict([], map[])
    else
      var n := |xs| - 1;
      Put(FromSeq(xs[..n], key), key(xs[n]), xs[n])
  }

  /** The keys are the keys of the items. */
  lemma {:induction false} FromSeqKeys<V>(xs: seq<V>, key: V -> string)
    ensures FromSeq(xs, key).vals.Keys == set x | x in xs :: key(x)
  {
    if xs != [] {
      var n := |xs| - 1;
      FromSeqKeys(xs[..n], key);
      assert xs == xs[..n] + [xs[n]];
    }
  }

  /** The value kept under each key is the last item with that key. */
  lemma {:induction false} FromSeqLast<V>(xs: seq<V>, key: V -> string, k: string)
    requires k in FromSeq(xs, key).vals
    ensures 0 <= LastIndex(xs, key, k) && FromSeq(xs, key).vals[k] == xs[LastIndex(xs, key, k)]
  {
    var n := |xs| - 1;
    if k != key(xs[n]) {
      FromSeqLast(xs[..n], key, k);
    }
  }
}
