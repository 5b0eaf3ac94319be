/**
  A Python `dict` as the program uses it: keys are strings, iteration order is
  insertion order, and `d[k] = v` either overwrites the value of an existing key
  where it stands or appends a new key at the end.
 */
module OrderedDict {
  import opened Wrappers

  type Dict<V> = seq<(string, V)>

  /** The keys of `d`, in insertion order. */
  function Keys<V>(d: Dict<V>): (ks: seq<string>)
    ensures |ks| == |d|
    ensures forall i :: 0 <= i < |d| ==> ks[i] == d[i].0
  {
    if d == [] then [] else [d[0].0] + Keys(d[1..])
  }

  /** No key occurs twice. Every dict satisfies this. */
  predicate Distinct(ks: seq<string>)
  {
    forall i, j :: 0 <= i < j < |ks| ==> ks[i] != ks[j]
  }

  /** `d.get(k)`: the value stored under `k`, or `None` when `k` is not a key. */
  function Get<V>(d: Dict<V>, k: string): (r: Option<V>)
    ensures r.Some? <==> k in Keys(d)
    ensures r.Some? ==> (k, r.value) in d
  {
    if d == [] then None
    else if d[0].0 == k then Some(d[0].1)
    else Get(d[1..], k)
  }

  /** Looking up in a dict that starts with the pair `p`. */
  lemma GetCons<V>(p: (string, V), d: Dict<V>)
    ensures Keys([p] + d) == [p.0] + Keys(d)
    ensures forall k :: Get([p] + d, k) == if p.0 == k then Some(p.1) else Get(d, k)
  {
    assert ([p] + d)[1..] == d;
  }

  /** `d[k] = v`. */
  function Put<V>(d: Dict<V>, k: string, v: V): (r: Dict<V>)
    ensures |r| == if k in Keys(d) then |d| else |d| + 1
  {
    if d == [] then [(k, v)]
    else if d[0].0 == k then [(k, v)] + d[1..]
    else [d[0]] + Put(d[1..], k, v)
  }

  /** After `d[k] = v`, `k` holds `v` and every other key holds what it held before. */
  lemma {:induction false} PutGet<V>(d: Dict<V>, k: string, v: V)
    ensures Get(Put(d, k, v), k) == Some(v)
    ensures forall k' :: k' != k ==> Get(Put(d, k, v), k') == Get(d, k')
  {
    if d != [] {
      assert d == [d[0]] + d[1..];
      GetCons(d[0], d[1..]);
      if d[0].0 == k {
        GetCons((k, v), d[1..]);
      } else {
        PutGet(d[1..], k, v);
        GetCons(d[0], Put(d[1..], k, v));
      }
    }
  }

  /** Assigning to an existing key keeps the keys and their order. */
  lemma {:induction false} PutExisting<V>(d: Dict<V>, k: string, v: V)
    requires k in Keys(d)
    ensures Keys(Put(d, k, v)) == Keys(d)
  {
    assert d == [d[0]] + d[1..];
    GetCons(d[0], d[1..]);
    if d[0].0 == k {
      GetCons((k, v), d[1..]);
    } else {
      PutExisting(d[1..], k, v);
      GetCons(d[0], Put(d[1..], k, v));
    }
  }

  /** Assigning to a new key appends it at the end. */
  lemma {:induction false} PutNew<V>(d: Dict<V>, k: string, v: V)
    requires k !in Keys(d)
    ensures Put(d, k, v) == d + [(k, v)]
  {
    if d != [] {
      assert d == [d[0]] + d[1..];
      GetCons(d[0], d[1..]);
      PutNew(d[1..], k, v);
      assert [d[0]] + (d[1..] + [(k, v)]) == d + [(k, v)];
    }
  }

  /** In a dict whose keys are distinct, looking up the i-th key gives the i-th value. */
  lemma {:induction false} GetAt<V>(d: Dict<V>, i: nat)
    requires i < |d|
    requires Distinct(Keys(d))
    ensures Get(d, d[i].0) == Some(d[i].1)
  {
    if i > 0 {
      assert Keys(d)[0] != Keys(d)[i];
      assert Distinct(Keys(d[1..])) by {
        forall a, b | 0 <= a < b < |d[1..]| ensures Keys(d[1..])[a] != Keys(d[1..])[b] {
          assert Keys(d)[a + 1] != Keys(d)[b + 1];
        }
      }
      GetAt(d[1..], i - 1);
    }
  }
}
