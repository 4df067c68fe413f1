/**
 * `TreeMap.put` and `TreeMap.get` for a map ordered by a comparison function on
 * its keys, as a sequence of entries with strictly increasing keys. A key that
 * compares 0 to a stored key is the same key: `put` replaces the value and keeps
 * the stored key object.
 */
module TreeMap {
  import opened Wrappers
  import opened Comparison
  import opened Entries

  /** Entries in strictly increasing key order. */
  ghost predicate Valid<K, V>(m: seq<(K, V)>, cmp: (K, K) -> int) {
    StrictlySortedBy(cmp, Keys(m))
  }

  /** `get(k)`: the value of the entry whose key compares 0 to `k`. */
  function Get<K, V>(m: seq<(K, V)>, k: K, cmp: (K, K) -> int): (r: Option<V>)
    ensures r.Some? <==> exists i :: 0 <= i < |m| && cmp(m[i].0, k) == 0
  {
    if |m| == 0 then None
    else if cmp(m[0].0, k) == 0 then Some(m[0].1)
    else
      var r := Get(m[1..], k, cmp);
      assert forall i :: 1 <= i < |m| ==> m[i] == m[1..][i - 1];
      r
  }

  /** `put(k, v)`: replace the value of an entry comparing 0, or insert a new entry at its place. */
  function Put<K, V>(m: seq<(K, V)>, k: K, v: V, cmp: (K, K) -> int): (r: seq<(K, V)>)
    ensures |r| == |m| || |r| == |m| + 1
    ensures forall e :: e in r ==> e in m || e.1 == v
    ensures forall e :: e in r ==> e.0 == k || e.0 in Keys(m)
  {
    if |m| == 0 then [(k, v)]
    else
      var c := cmp(k, m[0].0);
      if c < 0 then [(k, v)] + m
      else if c == 0 then [(m[0].0, v)] + m[1..]
      else
        var r := Put(m[1..], k, v, cmp);
        assert forall e :: e in m[1..] ==> e in m;
        assert forall key :: key in Keys(m[1..]) ==> key in Keys(m) by {
          forall key | key in Keys(m[1..])
            ensures key in Keys(m)
          {
            var i :| 0 <= i < |m[1..]| && Keys(m[1..])[i] == key;
            assert Keys(m)[i + 1] == key;
          }
        }
        [m[0]] + r
  }

  lemma TailValid<K, V>(m: seq<(K, V)>, cmp: (K, K) -> int)
    requires Valid(m, cmp) && |m| > 0
    ensures Valid(m[1..], cmp)
  {
    var ks := Keys(m);
    forall i, j | 0 <= i < j < |m[1..]|
      ensures cmp(Keys(m[1..])[i], Keys(m[1..])[j]) < 0
    {
      assert Keys(m[1..])[i] == ks[i + 1] && Keys(m[1..])[j] == ks[j + 1];
    }
  }

  /** `put` keeps the keys in strictly increasing order. */
  lemma {:induction false} PutValid<K(!new), V>(m: seq<(K, V)>, k: K, v: V, cmp: (K, K) -> int)
    requires IsComparator(cmp)
    requires Valid(m, cmp)
    ensures Valid(Put(m, k, v, cmp), cmp)
  {
    if |m| > 0 {
      var c := cmp(k, m[0].0);
      if c < 0 {
        PutInFrontValid(m, k, v, cmp);
      } else if c == 0 {
        assert Keys(Put(m, k, v, cmp)) == Keys(m);
      } else {
        TailValid(m, cmp);
        PutValid(m[1..], k, v, cmp);
        HeadBelowPut(m, k, v, cmp);
        ConsValid(m[0], Put(m[1..], k, v, cmp), cmp);
        assert Put(m, k, v, cmp) == [m[0]] + Put(m[1..], k, v, cmp);
      }
    }
  }

  lemma PutInFrontValid<K(!new), V>(m: seq<(K, V)>, k: K, v: V, cmp: (K, K) -> int)
    requires IsComparator(cmp)
    requires Valid(m, cmp) && |m| > 0 && cmp(k, m[0].0) < 0
    ensures Valid([(k, v)] + m, cmp)
  {
    var ks := Keys(m);
    var r := [(k, v)] + m;
    assert Keys(r) == [k] + ks;
    forall j | 0 < j < |Keys(r)|
      ensures cmp(k, Keys(r)[j]) < 0
    {
      if j > 1 {
        LessThenAtMost(cmp, k, ks[0], ks[j - 1]);
      }
    }
  }

  lemma ConsValid<K, V>(e: (K, V), t: seq<(K, V)>, cmp: (K, K) -> int)
    requires Valid(t, cmp)
    requires forall j :: 0 <= j < |t| ==> cmp(e.0, t[j].0) < 0
    ensures Valid([e] + t, cmp)
  {
    var r := [e] + t;
    forall i, j | 0 <= i < j < |r|
      ensures cmp(Keys(r)[i], Keys(r)[j]) < 0
    {
      if i > 0 {
        assert Keys(r)[i] == Keys(t)[i - 1] && Keys(r)[j] == Keys(t)[j - 1];
      } else {
        assert Keys(r)[j] == t[j - 1].0;
      }
    }
  }

  lemma HeadBelowPut<K(!new), V>(m: seq<(K, V)>, k: K, v: V, cmp: (K, K) -> int)
    requires IsComparator(cmp)
    requires Valid(m, cmp) && |m| > 0 && cmp(k, m[0].0) > 0
    ensures forall j :: 0 <= j < |Put(m[1..], k, v, cmp)| ==> cmp(m[0].0, Put(m[1..], k, v, cmp)[j].0) < 0
  {
    var t := Put(m[1..], k, v, cmp);
    var ks := Keys(m);
    assert cmp(ks[0], k) < 0 by { assert Sign(cmp(ks[0], k)) == -Sign(cmp(k, ks[0])); }
    forall j | 0 <= j < |t|
      ensures cmp(ks[0], t[j].0) < 0
    {
      assert t[j] in t;
      if t[j].0 != k {
        assert t[j].0 in Keys(m[1..]);
        var i :| 0 <= i < |Keys(m[1..])| && Keys(m[1..])[i] == t[j].0;
        assert ks[i + 1] == t[j].0;
      }
    }
  }

  /** After `put(k, v)`, every key comparing 0 to `k` maps to `v` and every other key to what it mapped to before. */
  lemma {:induction false} PutGet<K(!new), V>(m: seq<(K, V)>, k: K, v: V, k': K, cmp: (K, K) -> int)
    requires IsComparator(cmp)
    ensures Get(Put(m, k, v, cmp), k', cmp) == if cmp(k, k') == 0 then Some(v) else Get(m, k', cmp)
  {
    var r := Put(m, k, v, cmp);
    if |m| > 0 {
      var c := cmp(k, m[0].0);
      if c < 0 {
        assert r[0].0 == k && r[1..] == m;
      } else if c == 0 {
        assert Sign(cmp(k, k')) == Sign(cmp(m[0].0, k'));
        assert r[0].0 == m[0].0 && r[1..] == m[1..];
      } else {
        var t := Put(m[1..], k, v, cmp);
        PutGet(m[1..], k, v, k', cmp);
        assert r[0] == m[0] && r[1..] == t;
        if cmp(m[0].0, k') == 0 {
          assert Sign(cmp(m[0].0, k)) == Sign(cmp(k', k));
          assert Sign(cmp(m[0].0, k)) == -Sign(cmp(k, m[0].0));
          assert Sign(cmp(k', k)) == -Sign(cmp(k, k'));
        }
      }
    }
  }

  /** On a tie `put` keeps the key already stored: only the value changes. */
  lemma PutKeepsStoredKey<K, V>(m: seq<(K, V)>, k: K, v: V, cmp: (K, K) -> int)
    requires |m| > 0 && cmp(k, m[0].0) == 0
    ensures Put(m, k, v, cmp)[0] == (m[0].0, v)
    ensures Keys(Put(m, k, v, cmp)) == Keys(m)
  {
    var r := Put(m, k, v, cmp);
    assert Keys(r) == [m[0].0] + Keys(m[1..]);
  }

  /** A map built by putting the pairs of `ps` in order. */
  function FromSeq<K, V>(ps: seq<(K, V)>, cmp: (K, K) -> int): seq<(K, V)> {
    if |ps| == 0 then [] else Put(FromSeq(ps[..|ps| - 1], cmp), ps[|ps| - 1].0, ps[|ps| - 1].1, cmp)
  }

  lemma FromSeqSnoc<K, V>(ps: seq<(K, V)>, p: (K, V), cmp: (K, K) -> int)
    ensures FromSeq(ps + [p], cmp) == Put(FromSeq(ps, cmp), p.0, p.1, cmp)
  {
    assert (ps + [p])[..|ps|] == ps;
  }

  /** A map built by successive puts is well formed: its keys strictly increase. */
  lemma {:induction false} FromSeqValid<K(!new), V>(ps: seq<(K, V)>, cmp: (K, K) -> int)
    requires IsComparator(cmp)
    ensures Valid(FromSeq(ps, cmp), cmp)
  {
    if |ps| > 0 {
      FromSeqValid(ps[..|ps| - 1], cmp);
      PutValid(FromSeq(ps[..|ps| - 1], cmp), ps[|ps| - 1].0, ps[|ps| - 1].1, cmp);
    }
  }
}
