/**
 * Python dictionaries whose declaration order matters: an ordered list of
 * key/value pairs with unique keys.  Iterating `dict.items()` visits the
 * pairs in this order; `d.get(k, default)` and `k in d` look keys up.
 */
module Table {
  import opened Wrappers

  type Table<V> = seq<(string, V)>

  function Keys<V>(t: Table<V>): (ks: seq<string>)
    ensures |ks| == |t|
    ensures forall i :: 0 <= i < |t| ==> ks[i] == t[i].0
  {
    if t == [] then [] else [t[0].0] + Keys(t[1..])
  }

  /** `d.values()` */
  function Values<V>(t: Table<V>): (vs: seq<V>)
    ensures |vs| == |t|
    ensures forall i :: 0 <= i < |t| ==> vs[i] == t[i].1
  {
    if t == [] then [] else [t[0].1] + Values(t[1..])
  }

  /** `k in d` */
  predicate HasKey<V>(t: Table<V>, k: string) {
    exists i :: 0 <= i < |t| && t[i].0 == k
  }

  /** No key is declared twice (what a Python dict literal guarantees). */
  predicate UniqueKeys<V>(t: Table<V>) {
    forall i, j :: 0 <= i < j < |t| ==> t[i].0 != t[j].0
  }

  /** Index of the first pair with key k. */
  function IndexOf<V>(t: Table<V>, k: string): (i: nat)
    requires HasKey(t, k)
    ensures i < |t| && t[i].0 == k
    ensures forall j :: 0 <= j < i ==> t[j].0 != k
  {
    if t[0].0 == k then 0
    else
      assert HasKey(t[1..], k) by {
        var i :| 0 <= i < |t| && t[i].0 == k;
        assert t[1..][i - 1].0 == k;
      }
      1 + IndexOf(t[1..], k)
  }

  /** `d[k]` as an Option: the value stored under k, None when k is absent. */
  function Get<V>(t: Table<V>, k: string): (r: Option<V>)
    ensures r.Some? <==> HasKey(t, k)
    ensures r.Some? ==> r.value == t[IndexOf(t, k)].1
  {
    if HasKey(t, k) then Some(t[IndexOf(t, k)].1) else None
  }

  /** `d.get(k, default)` */
  function GetOr<V>(t: Table<V>, k: string, default: V): (r: V)
    ensures !HasKey(t, k) ==> r == default
    ensures HasKey(t, k) ==> r == t[IndexOf(t, k)].1
  {
    Get(t, k).GetOr(default)
  }

  /** A lookup with a default returns the default or one of the table's values. */
  lemma GetOrIsValueOrDefault<V>(t: Table<V>, k: string, default: V)
    ensures GetOr(t, k, default) == default || GetOr(t, k, default) in Values(t)
  {
    if HasKey(t, k) {
      assert Values(t)[IndexOf(t, k)] == GetOr(t, k, default);
    }
  }

  /** With unique keys, the pair at any index is the one a lookup finds. */
  lemma GetAt<V>(t: Table<V>, i: nat)
    requires UniqueKeys(t)
    requires i < |t|
    ensures Get(t, t[i].0) == Some(t[i].1)
  {
    assert HasKey(t, t[i].0);
  }
}
