/**
 * `HashMap.put` and `HashMap.get` as far as the key class decides them: a
 * stored key matches a probe when the two hash codes agree and the probe
 * `equals` the stored key. Buckets, resizing and iteration order are not
 * modelled; the entries are kept in insertion order.
 */
module HashMap {
  import opened Wrappers

  /** The lookup test of `HashMap.getNode`/`putVal`: equal hash codes, then `k.equals(stored)`. */
  predicate Matches<K>(stored: K, k: K, hash: K -> int, eq: (K, K) -> bool) {
    hash(stored) == hash(k) && eq(k, stored)
  }

  /** Position of the entry matching `k`, scanning from the front. */
  function IndexOf<K, V>(m: seq<(K, V)>, k: K, hash: K -> int, eq: (K, K) -> bool): (r: Option<nat>)
    ensures r.Some? ==> r.value < |m| && Matches(m[r.value].0, k, hash, eq)
    ensures r.Some? ==> forall j :: 0 <= j < r.value ==> !Matches(m[j].0, k, hash, eq)
    ensures r.None? <==> forall j :: 0 <= j < |m| ==> !Matches(m[j].0, k, hash, eq)
  {
    if |m| == 0 then None
    else if Matches(m[0].0, k, hash, eq) then Some(0)
    else
      match IndexOf(m[1..], k, hash, eq)
      case None =>
        assert forall j :: 1 <= j < |m| ==> m[j] == m[1..][j - 1];
        None
      case Some(i) =>
        assert forall j :: 1 <= j < |m| ==> m[j] == m[1..][j - 1];
        Some(i + 1)
  }

  /** `get(k)`: the value of the matching entry; `None` stands for the `null` of a missing key. */
  function Get<K, V>(m: seq<(K, V)>, k: K, hash: K -> int, eq: (K, K) -> bool): (r: Option<V>)
    ensures r.Some? <==> exists j :: 0 <= j < |m| && Matches(m[j].0, k, hash, eq)
  {
    match IndexOf(m, k, hash, eq)
    case None => None
    case Some(i) => Some(m[i].1)
  }

  /** `put(k, v)`: a matching entry gets the new value and keeps its key; otherwise a new entry is added. */
  function Put<K, V>(m: seq<(K, V)>, k: K, v: V, hash: K -> int, eq: (K, K) -> bool): (r: seq<(K, V)>)
    ensures |r| == if Get(m, k, hash, eq).Some? then |m| else |m| + 1
    ensures forall j :: 0 <= j < |m| ==> r[j].0 == m[j].0
  {
    match IndexOf(m, k, hash, eq)
    case None => m + [(k, v)]
    case Some(i) => m[i := (m[i].0, v)]
  }

  /** What `HashMap` needs of the key class: `equals` is an equivalence and equal keys hash alike. */
  ghost predicate LawfulKeys<K(!new)>(hash: K -> int, eq: (K, K) -> bool) {
    && (forall a :: eq(a, a))
    && (forall a, b :: eq(a, b) ==> eq(b, a))
    && (forall a, b, c :: eq(a, b) && eq(b, c) ==> eq(a, c))
    && (forall a, b :: eq(a, b) ==> hash(a) == hash(b))
  }

  /** With lawful keys, after `put(k, v)` every key equal to `k` finds `v`, and every other key what it found before. */
  lemma PutGet<K(!new), V>(m: seq<(K, V)>, k: K, v: V, k': K, hash: K -> int, eq: (K, K) -> bool)
    requires LawfulKeys(hash, eq)
    ensures Get(Put(m, k, v, hash, eq), k', hash, eq) == if eq(k', k) then Some(v) else Get(m, k', hash, eq)
  {
    var r := Put(m, k, v, hash, eq);
    if eq(k', k) {
      forall j | 0 <= j < |r| ensures Matches(r[j].0, k', hash, eq) <==> Matches(r[j].0, k, hash, eq) {
      }
      SameMatchesSameIndex(r, k, k', hash, eq);
      match IndexOf(m, k, hash, eq)
      case None =>
        assert IndexOf(r, k, hash, eq) == Some(|m|) by {
          IndexOfAppend(m, k, v, hash, eq);
        }
      case Some(i) =>
        IndexOfUpdate(m, i, k, v, k, hash, eq);
    } else {
      match IndexOf(m, k, hash, eq)
      case None =>
        IndexOfAppendOther(m, k, v, k', hash, eq);
      case Some(i) =>
        assert !Matches(m[i].0, k', hash, eq);
        IndexOfUpdate(m, i, k, v, k', hash, eq);
    }
  }

  lemma SameMatchesSameIndex<K, V>(r: seq<(K, V)>, k: K, k': K, hash: K -> int, eq: (K, K) -> bool)
    requires forall j :: 0 <= j < |r| ==> (Matches(r[j].0, k', hash, eq) <==> Matches(r[j].0, k, hash, eq))
    ensures IndexOf(r, k', hash, eq) == IndexOf(r, k, hash, eq)
  {
    var a, b := IndexOf(r, k', hash, eq), IndexOf(r, k, hash, eq);
    if a.Some? && b.Some? {
      assert !(a.value < b.value) && !(b.value < a.value);
    }
  }

  lemma IndexOfAppend<K, V>(m: seq<(K, V)>, k: K, v: V, hash: K -> int, eq: (K, K) -> bool)
    requires IndexOf(m, k, hash, eq).None?
    requires eq(k, k)
    ensures IndexOf(m + [(k, v)], k, hash, eq) == Some(|m|)
  {
    var r := m + [(k, v)];
    var x := IndexOf(r, k, hash, eq);
    assert Matches(r[|m|].0, k, hash, eq);
    assert forall j :: 0 <= j < |m| ==> r[j] == m[j];
  }

  lemma IndexOfAppendOther<K, V>(m: seq<(K, V)>, k: K, v: V, k': K, hash: K -> int, eq: (K, K) -> bool)
    requires !eq(k', k)
    ensures Get(m + [(k, v)], k', hash, eq) == Get(m, k', hash, eq)
  {
    var r := m + [(k, v)];
    var x, y := IndexOf(r, k', hash, eq), IndexOf(m, k', hash, eq);
    assert forall j :: 0 <= j < |m| ==> r[j] == m[j];
    assert !Matches(r[|m|].0, k', hash, eq);
    if x.Some? {
      assert x.value < |m|;
      assert y.Some? && !(y.value < x.value) && !(x.value < y.value);
    } else {
      assert y.None?;
    }
  }

  lemma IndexOfUpdate<K, V>(m: seq<(K, V)>, i: nat, k: K, v: V, k': K, hash: K -> int, eq: (K, K) -> bool)
    requires i < |m|
    ensures Get(m[i := (m[i].0, v)], k', hash, eq) == if IndexOf(m, k', hash, eq) == Some(i) then Some(v) else Get(m, k', hash, eq)
  {
    var r := m[i := (m[i].0, v)];
    var x, y := IndexOf(r, k', hash, eq), IndexOf(m, k', hash, eq);
    assert forall j :: 0 <= j < |m| ==> r[j].0 == m[j].0;
    assert x.Some? <==> y.Some?;
    if x.Some? {
      assert !(y.value < x.value) && !(x.value < y.value);
    }
  }
}
