/**
 * A Python `dict` keyed by job hash, with its insertion order: assigning
 * to an existing key keeps its position, a new key goes to the end, and
 * `pop`/`del` remove the key from the order.
 */
module Dicts {
  import opened Messages

  datatype Dict<V> = Dict(order: seq<Hash>, entries: map<Hash, V>)

  ghost predicate NoDups(s: seq<Hash>)
  {
    forall i, j :: 0 <= i < j < |s| ==> s[i] != s[j]
  }

  /** The order lists each key of the entries exactly once. */
  ghost predicate Valid<V>(d: Dict<V>)
  {
    NoDups(d.order) && forall k :: k in d.order <==> k in d.entries
  }

  function Empty<V>(): (d: Dict<V>)
    ensures Valid(d) && d.entries == map[]
  {
    Dict([], map[])
  }

  /** `s` with every occurrence of `x` removed (also Redis `LREM key 0 x`). */
  function Without(s: seq<Hash>, x: Hash): (r: seq<Hash>)
    ensures forall y :: y in r <==> y in s && y != x
    ensures |r| <= |s|
    decreases |s|
  {
    if s == [] then []
    else (if s[0] == x then [] else [s[0]]) + Without(s[1..], x)
  }

  /** In a list without duplicates no element occurs before its own position. */
  lemma NoDupsPrefix(s: seq<Hash>, i: nat)
    requires NoDups(s) && i < |s|
    ensures s[i] !in s[..i]
  {
    forall j | 0 <= j < i
      ensures s[..i][j] != s[i]
    {
      assert s[..i][j] == s[j];
    }
  }

  /** Removing a value keeps a list free of duplicates. */
  lemma {:induction false} WithoutNoDups(s: seq<Hash>, x: Hash)
    ensures NoDups(s) ==> NoDups(Without(s, x))
    decreases |s|
  {
    if s != [] && NoDups(s) {
      WithoutNoDups(s[1..], x);
      var r := Without(s, x);
      var tail := Without(s[1..], x);
      if s[0] != x {
        assert r == [s[0]] + tail;
        assert s[0] !in s[1..];
        assert s[0] !in tail;
      } else {
        assert r == tail;
      }
    }
  }

  /** Removing a value that is absent changes nothing. */
  lemma {:induction false} WithoutAbsent(s: seq<Hash>, x: Hash)
    requires x !in s
    ensures Without(s, x) == s
    decreases |s|
  {
    if s != [] {
      WithoutAbsent(s[1..], x);
    }
  }

  /** `d[k] = v`. */
  function Put<V>(d: Dict<V>, k: Hash, v: V): (r: Dict<V>)
    ensures r.entries == d.entries[k := v]
    ensures Valid(d) ==> Valid(r)
    ensures k in d.entries ==> r.order == d.order
    ensures k !in d.entries ==> r.order == d.order + [k]
  {
    if k in d.entries then Dict(d.order, d.entries[k := v])
    else
      assert Valid(d) ==> k !in d.order;
      Dict(d.order + [k], d.entries[k := v])
  }

  /** `d.pop(k)` / `del d[k]` for a key that is present. */
  function Pop<V>(d: Dict<V>, k: Hash): (r: Dict<V>)
    ensures r.entries == d.entries - {k}
    ensures r.order == Without(d.order, k)
    ensures Valid(d) ==> Valid(r)
  {
    WithoutNoDups(d.order, k);
    Dict(Without(d.order, k), d.entries - {k})
  }

  /** Assigning a key twice is assigning it once, with the second value. */
  lemma PutPut<V>(d: Dict<V>, k: Hash, v1: V, v2: V)
    ensures Put(Put(d, k, v1), k, v2) == Put(d, k, v2)
  {
  }
}
