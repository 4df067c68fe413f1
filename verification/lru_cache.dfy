/**
 * `LRUCache`: a `LinkedHashMap` in access order whose `removeEldestEntry`
 * answers `size() > capacity`. The entries are a sequence, eldest (least
 * recently used) first and most recently used last. `get` of a present key and
 * `put` of any key move that key to the end; `put` of a new key appends it and
 * then removes the eldest entry once if the map has grown beyond its capacity.
 */
module LruCache {
  import opened Wrappers
  import opened JavaInt
  import opened Entries
  import Decimal
  import opened JavaObject

  /** `java.lang.IllegalArgumentException`, carrying its message. */
  datatype IllegalArgumentException = IllegalArgumentException(message: string)

  datatype Cache<K, V> = Cache(capacity: Int32, entries: seq<(K, V)>)

  /** The value stored under `k`. */
  function Lookup<K(==), V>(es: seq<(K, V)>, k: K): (r: Option<V>)
    ensures r.Some? <==> k in Keys(es)
  {
    if |es| == 0 then None
    else if es[0].0 == k then Some(es[0].1)
    else
      var r := Lookup(es[1..], k);
      assert Keys(es) == [es[0].0] + Keys(es[1..]);
      r
  }

  /** The entries without the one for `k`, order kept. */
  function Without<K(==), V>(es: seq<(K, V)>, k: K): (r: seq<(K, V)>)
    ensures |r| <= |es|
  {
    if |es| == 0 then []
    else if es[0].0 == k then Without(es[1..], k)
    else [es[0]] + Without(es[1..], k)
  }

  /** No key occurs twice. */
  ghost predicate DistinctKeys<K, V>(es: seq<(K, V)>) {
    forall i, j :: 0 <= i < j < |es| ==> es[i].0 != es[j].0
  }

  /** What every reachable cache satisfies: distinct keys, and never more entries than the capacity. */
  ghost predicate Valid<K, V>(c: Cache<K, V>) {
    0 <= c.capacity && |c.entries| <= c.capacity && DistinctKeys(c.entries)
  }

  /** `new LRUCache<>(capacity)`: the `LinkedHashMap` constructor rejects a negative initial capacity. */
  function New<K, V>(capacity: Int32): (r: Result<Cache<K, V>, IllegalArgumentException>)
    ensures r.Err? <==> capacity < 0
    ensures r.Ok? ==> Valid(r.value) && r.value.capacity == capacity && r.value.entries == []
  {
    if capacity < 0 then Err(IllegalArgumentException("Illegal initial capacity: " + Decimal.IntToString(capacity)))
    else Ok(Cache(capacity, []))
  }

  /** `removeEldestEntry`: asked after a new key went in; true when the map now exceeds its capacity. */
  predicate RemoveEldestEntry<K(==), V>(c: Cache<K, V>) {
    |c.entries| > c.capacity
  }

  /** `get(k)`: the stored value, and the cache with `k` moved to the most recently used end. */
  function Get<K(==,!new), V>(c: Cache<K, V>, k: K): (r: (Option<V>, Cache<K, V>))
    ensures r.0 == Lookup(c.entries, k)
    ensures r.1.capacity == c.capacity
    ensures r.0.None? ==> r.1 == c
    ensures r.0.Some? ==> |r.1.entries| > 0 && r.1.entries[|r.1.entries| - 1] == (k, r.0.value)
    ensures r.0.Some? ==> Without(r.1.entries, k) == Without(c.entries, k)
    ensures forall k' :: Lookup(r.1.entries, k') == Lookup(c.entries, k')
  {
    var found := Lookup(c.entries, k);
    if found.None? then (None, c)
    else
      var v := found.value;
      var es := Without(c.entries, k) + [(k, v)];
      forall k' ensures Lookup(es, k') == Lookup(c.entries, k') {
        LookupWithout(c.entries, k, k');
        LookupAppend(Without(c.entries, k), k, v, k');
      }
      LookupWithout(c.entries, k, k);
      WithoutAppendSame(Without(c.entries, k), k, v);
      (Some(v), Cache(c.capacity, es))
  }

  /** `put(k, v)`: the cache afterwards, and the value `k` had before. */
  function Put<K(==), V>(c: Cache<K, V>, k: K, v: V): (r: (Cache<K, V>, Option<V>))
    ensures r.0.capacity == c.capacity
    ensures r.1 == Lookup(c.entries, k)
  {
    match Lookup(c.entries, k)
    case Some(prev) => (Cache(c.capacity, Without(c.entries, k) + [(k, v)]), Some(prev))
    case None =>
      var grown := Cache(c.capacity, c.entries + [(k, v)]);
      if RemoveEldestEntry(grown) then (Cache(c.capacity, grown.entries[1..]), None) else (grown, None)
  }

  lemma {:induction false} LookupWithout<K, V>(es: seq<(K, V)>, k: K, k': K)
    ensures Lookup(Without(es, k), k') == if k' == k then None else Lookup(es, k')
  {
    if |es| > 0 {
      LookupWithout(es[1..], k, k');
    }
  }

  lemma {:induction false} LookupAppend<K, V>(es: seq<(K, V)>, k: K, v: V, k': K)
    ensures Lookup(es + [(k, v)], k') == if k' in Keys(es) then Lookup(es, k') else if k' == k then Some(v) else None
  {
    if |es| > 0 {
      assert (es + [(k, v)])[1..] == es[1..] + [(k, v)];
      LookupAppend(es[1..], k, v, k');
    }
  }

  /** In a cache without repeated keys, dropping the eldest entry forgets exactly its key. */
  lemma LookupDropEldest<K, V>(es: seq<(K, V)>, k': K)
    requires DistinctKeys(es) && |es| > 0
    ensures Lookup(es[1..], k') == if k' == es[0].0 then None else Lookup(es, k')
  {
    if k' == es[0].0 {
      assert k' !in Keys(es[1..]);
    }
  }

  lemma {:induction false} WithoutDistinct<K, V>(es: seq<(K, V)>, k: K)
    requires DistinctKeys(es)
    ensures DistinctKeys(Without(es, k))
    ensures k in Keys(es) ==> |Without(es, k)| == |es| - 1
    ensures k !in Keys(es) ==> Without(es, k) == es
  {
    if |es| > 0 {
      assert Keys(es) == [es[0].0] + Keys(es[1..]);
      TailDistinct(es);
      WithoutDistinct(es[1..], k);
      if es[0].0 != k {
        WithoutKeepsHead(es, k);
      } else {
        HeadNotInTail(es);
      }
    }
  }

  lemma WithoutKeepsHead<K, V>(es: seq<(K, V)>, k: K)
    requires DistinctKeys(es) && |es| > 0 && es[0].0 != k
    requires DistinctKeys(Without(es[1..], k))
    ensures DistinctKeys(Without(es, k))
  {
    var t := Without(es[1..], k);
    HeadNotInTail(es);
    LookupWithout(es[1..], k, es[0].0);
    assert es[0].0 !in Keys(t);
    forall j | 0 <= j < |t|
      ensures es[0].0 != t[j].0
    {
      assert Keys(t)[j] == t[j].0;
    }
    ConsDistinct(es[0], t);
  }

  lemma TailDistinct<K, V>(es: seq<(K, V)>)
    requires DistinctKeys(es) && |es| > 0
    ensures DistinctKeys(es[1..])
  {
    forall i, j | 0 <= i < j < |es[1..]|
      ensures es[1..][i].0 != es[1..][j].0
    {
      assert es[1..][i] == es[i + 1] && es[1..][j] == es[j + 1];
    }
  }

  lemma HeadNotInTail<K, V>(es: seq<(K, V)>)
    requires DistinctKeys(es) && |es| > 0
    ensures es[0].0 !in Keys(es[1..])
  {
    forall j | 0 <= j < |es[1..]|
      ensures Keys(es[1..])[j] != es[0].0
    {
      assert es[1..][j] == es[j + 1];
    }
  }

  lemma ConsDistinct<K, V>(e: (K, V), t: seq<(K, V)>)
    requires DistinctKeys(t)
    requires forall j :: 0 <= j < |t| ==> e.0 != t[j].0
    ensures DistinctKeys([e] + t)
  {
    var r := [e] + t;
    forall i, j | 0 <= i < j < |r|
      ensures r[i].0 != r[j].0
    {
      if i > 0 {
        assert r[i] == t[i - 1] && r[j] == t[j - 1];
      } else {
        assert r[j] == t[j - 1];
      }
    }
  }

  lemma AppendDistinct<K, V>(es: seq<(K, V)>, k: K, v: V)
    requires DistinctKeys(es) && k !in Keys(es)
    ensures DistinctKeys(es + [(k, v)])
  {
    var r := es + [(k, v)];
    forall i, j | 0 <= i < j < |r|
      ensures r[i].0 != r[j].0
    {
      if j == |es| {
        assert Keys(es)[i] == es[i].0;
      }
    }
  }

  /** `put` keeps the cache well formed: keys stay distinct and the size never exceeds the capacity. */
  lemma PutValid<K, V>(c: Cache<K, V>, k: K, v: V)
    requires Valid(c)
    ensures Valid(Put(c, k, v).0)
    ensures |Put(c, k, v).0.entries| <= c.capacity
  {
    var es := c.entries;
    WithoutDistinct(es, k);
    if k in Keys(es) {
      LookupWithout(es, k, k);
      AppendDistinct(Without(es, k), k, v);
    } else {
      AppendDistinct(es, k, v);
      if |es| + 1 > c.capacity {
        TailDistinct(es + [(k, v)]);
      }
    }
  }

  /** Putting an existing key replaces its value, makes it most recently used and evicts nothing. */
  lemma PutExistingKey<K, V>(c: Cache<K, V>, k: K, v: V)
    requires Valid(c) && k in Keys(c.entries)
    ensures var c' := Put(c, k, v).0;
      && |c'.entries| == |c.entries|
      && c'.entries[|c'.entries| - 1] == (k, v)
      && (forall k' :: Lookup(c'.entries, k') == if k' == k then Some(v) else Lookup(c.entries, k'))
      && Without(c'.entries, k) == Without(c.entries, k)
  {
    var es := c.entries;
    WithoutDistinct(es, k);
    var c' := Put(c, k, v).0;
    forall k' ensures Lookup(c'.entries, k') == if k' == k then Some(v) else Lookup(es, k') {
      LookupWithout(es, k, k');
      LookupAppend(Without(es, k), k, v, k');
    }
    LookupWithout(es, k, k);
    WithoutAppendSame(Without(es, k), k, v);
  }

  lemma {:induction false} WithoutAppendSame<K, V>(es: seq<(K, V)>, k: K, v: V)
    requires k !in Keys(es)
    ensures Without(es + [(k, v)], k) == es
  {
    var e := es + [(k, v)];
    if |es| > 0 {
      var t := es[1..];
      assert Keys(es)[0] == es[0].0;
      assert Keys(t) == Keys(es)[1..];
      WithoutAppendSame(t, k, v);
      assert e[0] == es[0] && e[1..] == t + [(k, v)];
      assert Without(e, k) == [es[0]] + Without(t + [(k, v)], k);
      assert es == [es[0]] + t;
    } else {
      assert e[1..] == [];
    }
  }

  /**
   * Putting a new key into a cache with room appends it as most recently used,
   * keeps every older entry in its recency order and evicts nothing.
   */
  lemma PutNewKeyWithRoom<K, V>(c: Cache<K, V>, k: K, v: V)
    requires Valid(c) && k !in Keys(c.entries) && |c.entries| < c.capacity
    ensures Put(c, k, v).0.entries == c.entries + [(k, v)]
    ensures |Put(c, k, v).0.entries| == |c.entries| + 1
    ensures Put(c, k, v).0.entries[|c.entries|] == (k, v)
    ensures forall k' :: Lookup(Put(c, k, v).0.entries, k') == if k' == k then Some(v) else Lookup(c.entries, k')
  {
    forall k' ensures Lookup(Put(c, k, v).0.entries, k') == if k' == k then Some(v) else Lookup(c.entries, k') {
      LookupAppend(c.entries, k, v, k');
    }
  }

  /**
   * Putting a new key into a full cache evicts exactly the least recently used
   * entry, keeps every other mapping in its order, and appends the new one.
   */
  lemma PutNewKeyWhenFull<K, V>(c: Cache<K, V>, k: K, v: V)
    requires Valid(c) && k !in Keys(c.entries) && |c.entries| == c.capacity > 0
    ensures var c' := Put(c, k, v).0;
      && c'.entries == c.entries[1..] + [(k, v)]
      && Lookup(c'.entries, c.entries[0].0) == None
      && Lookup(c'.entries, k) == Some(v)
      && (forall k' :: k' != k && k' != c.entries[0].0 ==> Lookup(c'.entries, k') == Lookup(c.entries, k'))
  {
    var es := c.entries;
    assert (es + [(k, v)])[1..] == es[1..] + [(k, v)];
    forall k' ensures Lookup(es[1..] + [(k, v)], k') == if k' == k then Some(v) else if k' == es[0].0 then None else Lookup(es, k') {
      LookupDropEldestAppend(es, k, v, k');
    }
  }

  lemma LookupDropEldestAppend<K, V>(es: seq<(K, V)>, k: K, v: V, k': K)
    requires DistinctKeys(es) && |es| > 0 && k !in Keys(es)
    ensures Lookup(es[1..] + [(k, v)], k') == if k' == k then Some(v) else if k' == es[0].0 then None else Lookup(es, k')
  {
    LookupAppend(es[1..], k, v, k');
    assert Keys(es[1..]) == Keys(es)[1..];
    LookupDropEldest(es, k');
  }

  /** With capacity 0 a put inserts the entry and then evicts it as the eldest: the cache stays empty. */
  lemma ZeroCapacityStaysEmpty<K, V>(c: Cache<K, V>, k: K, v: V)
    requires Valid(c) && c.capacity == 0
    ensures Put(c, k, v).0.entries == []
  {
  }

  /** `get` of a present key makes it most recently used and keeps the cache well formed. */
  lemma GetValid<K(!new), V>(c: Cache<K, V>, k: K)
    requires Valid(c)
    ensures Valid(Get(c, k).1)
    ensures |Get(c, k).1.entries| == |c.entries|
  {
    WithoutDistinct(c.entries, k);
    if k in Keys(c.entries) {
      LookupWithout(c.entries, k, k);
      AppendDistinct(Without(c.entries, k), k, Lookup(c.entries, k).value);
    }
  }

  /** The keys present, as a set. */
  ghost function KeySet<K, V>(es: seq<(K, V)>): set<K> {
    set k | k in Keys(es)
  }

  lemma {:induction false} KeySetSize<K, V>(es: seq<(K, V)>)
    requires DistinctKeys(es)
    ensures |KeySet(es)| == |es|
  {
    if |es| > 0 {
      TailDistinct(es);
      HeadNotInTail(es);
      KeySetSize(es[1..]);
      assert Keys(es) == [es[0].0] + Keys(es[1..]);
      assert KeySet(es) == {es[0].0} + KeySet(es[1..]);
    }
  }

  lemma {:induction false} LookupAt<K, V>(es: seq<(K, V)>, i: nat)
    requires DistinctKeys(es) && i < |es|
    ensures Lookup(es, es[i].0) == Some(es[i].1)
  {
    if i > 0 {
      TailDistinct(es);
      LookupAt(es[1..], i - 1);
    }
  }

  /**
   * `equals`, as the class means it: the other cache has the same capacity, the
   * same size, and maps every key of this cache to the same value. Recency order
   * plays no part.
   */
  predicate Equals<K(==), V(==)>(a: Cache<K, V>, b: Cache<K, V>) {
    && |a.entries| == |b.entries|
    && (forall i :: 0 <= i < |a.entries| ==> Lookup(b.entries, a.entries[i].0) == Some(a.entries[i].1))
    && a.capacity == b.capacity
  }

  /** Both sequences map every key alike; the order of the entries does not matter. */
  ghost predicate SameMappings<K(!new), V>(es: seq<(K, V)>, fs: seq<(K, V)>) {
    forall k :: Lookup(es, k) == Lookup(fs, k)
  }

  /** Two well-formed caches are equal exactly when they hold the same mappings and have the same capacity. */
  lemma EqualsIffSameContents<K(!new), V>(a: Cache<K, V>, b: Cache<K, V>)
    requires DistinctKeys(a.entries) && DistinctKeys(b.entries)
    ensures Equals(a, b) <==> a.capacity == b.capacity && SameMappings(a.entries, b.entries)
  {
    if Equals(a, b) {
      EqualsGivesSameContents(a, b);
    } else if a.capacity == b.capacity && SameMappings(a.entries, b.entries) {
      SameContentsGivesEquals(a, b);
    }
  }

  lemma EqualsGivesSameContents<K(!new), V>(a: Cache<K, V>, b: Cache<K, V>)
    requires DistinctKeys(a.entries) && DistinctKeys(b.entries)
    requires Equals(a, b)
    ensures forall k :: Lookup(a.entries, k) == Lookup(b.entries, k)
  {
    EqualsSameKeys(a, b);
    forall k ensures Lookup(a.entries, k) == Lookup(b.entries, k) {
      if k in Keys(a.entries) {
        var i :| 0 <= i < |a.entries| && Keys(a.entries)[i] == k;
        LookupAt(a.entries, i);
      } else {
        assert k !in KeySet(b.entries);
      }
    }
  }

  /** Equal caches without repeated keys hold the same keys: inclusion plus equal sizes. */
  lemma EqualsSameKeys<K(!new), V>(a: Cache<K, V>, b: Cache<K, V>)
    requires DistinctKeys(a.entries) && DistinctKeys(b.entries)
    requires Equals(a, b)
    ensures KeySet(a.entries) == KeySet(b.entries)
  {
    KeySetSize(a.entries);
    KeySetSize(b.entries);
    var A, B := KeySet(a.entries), KeySet(b.entries);
    forall k | k in A ensures k in B {
      var i :| 0 <= i < |a.entries| && Keys(a.entries)[i] == k;
    }
    SubsetOfSameSize(A, B);
  }

  lemma SubsetOfSameSize<T>(A: set<T>, B: set<T>)
    requires A <= B && |A| == |B|
    ensures A == B
  {
    assert B == A + (B - A);
    assert |B - A| == 0;
  }

  lemma SameContentsGivesEquals<K(!new), V>(a: Cache<K, V>, b: Cache<K, V>)
    requires DistinctKeys(a.entries) && DistinctKeys(b.entries)
    requires a.capacity == b.capacity && forall k :: Lookup(a.entries, k) == Lookup(b.entries, k)
    ensures Equals(a, b)
  {
    KeySetSize(a.entries);
    KeySetSize(b.entries);
    assert KeySet(a.entries) == KeySet(b.entries) by {
      forall k ensures k in KeySet(a.entries) <==> k in KeySet(b.entries) {
        assert Lookup(a.entries, k) == Lookup(b.entries, k);
      }
    }
    forall i | 0 <= i < |a.entries| ensures Lookup(b.entries, a.entries[i].0) == Some(a.entries[i].1) {
      LookupAt(a.entries, i);
    }
  }

  /**
   * The walk `AbstractMap.equals` performs: `b.get(key)` for each entry of this
   * cache in order, stopping at the first mismatch. On an access-ordered map
   * every successful `get` moves the key to `b`'s most recently used end.
   */
  function WalkGets<K(==,!new), V(==)>(es: seq<(K, V)>, b: Cache<K, V>): (r: (bool, Cache<K, V>))
    ensures r.1.capacity == b.capacity
  {
    if |es| == 0 then (true, b)
    else
      var (found, b1) := Get(b, es[0].0);
      if found != Some(es[0].1) then (false, b1) else WalkGets(es[1..], b1)
  }

  /** The walk leaves every mapping of `b` in place, and succeeds exactly when `b` maps each key of `es` to its value. */
  lemma {:induction false} WalkGetsAnswers<K(!new), V>(es: seq<(K, V)>, b: Cache<K, V>)
    ensures forall k :: Lookup(WalkGets(es, b).1.entries, k) == Lookup(b.entries, k)
    ensures WalkGets(es, b).0 <==> forall i :: 0 <= i < |es| ==> Lookup(b.entries, es[i].0) == Some(es[i].1)
  {
    if |es| > 0 {
      var b1 := Get(b, es[0].0).1;
      if Get(b, es[0].0).0 == Some(es[0].1) {
        WalkGetsAnswers(es[1..], b1);
        assert SameMappings(b1.entries, b.entries);
        ShiftedAll(es, b, b1);
      }
    }
  }

  lemma ShiftedAll<K(!new), V>(es: seq<(K, V)>, b: Cache<K, V>, b1: Cache<K, V>)
    requires |es| > 0 && SameMappings(b1.entries, b.entries)
    requires Lookup(b.entries, es[0].0) == Some(es[0].1)
    ensures (forall i :: 0 <= i < |es| ==> Lookup(b.entries, es[i].0) == Some(es[i].1))
        <==> (forall i :: 0 <= i < |es[1..]| ==> Lookup(b1.entries, es[1..][i].0) == Some(es[1..][i].1))
  {
    assert forall i :: 1 <= i < |es| ==> es[i] == es[1..][i - 1];
  }

  /**
   * `equals` as written: the class check, `super.equals(o)` (the shortcut for
   * `o == this`, the size, then the walk of `get` calls on the argument), then
   * the capacities. Returns the verdict and the argument as the call leaves it.
   */
  function EqualsAsWritten<K(==,!new), V(==)>(a: Cache<K, V>, o: Arg<Cache<K, V>>): (r: (bool, Arg<Cache<K, V>>))
    ensures r.0 <==> o.SameReference? || (o.Instance? && Equals(a, o.value))
    ensures !o.Instance? ==> r.1 == o
    ensures o.Instance? ==> r.1.Instance? && forall k :: Lookup(r.1.value.entries, k) == Lookup(o.value.entries, k)
  {
    match o
    case Null => (false, o)
    case OtherClass => (false, o)
    case SameReference => (a.capacity == a.capacity, o)
    case Instance(b) =>
      if |a.entries| != |b.entries| then (false, o)
      else
        WalkGetsAnswers(a.entries, b);
        var (same, b') := WalkGets(a.entries, b);
        (same && a.capacity == b.capacity, Instance(b'))
  }

  /**
   * The verdict is right, but asking it reorders the argument: after
   * `a.equals(b)` with `b` holding the same entries in the other recency order,
   * `b` forgets a different key on its next insertion.
   */
  lemma EqualsAsWrittenReordersArgument()
    ensures var a := Cache(2, [(1, "One"), (2, "Two")]);
      var b := Cache(2, [(2, "Two"), (1, "One")]);
      var (verdict, o') := EqualsAsWritten(a, Instance(b));
      && verdict
      && o' == Instance(Cache(2, [(1, "One"), (2, "Two")]))
      && Put(b, 3, "Three").0.entries == [(1, "One"), (3, "Three")]
      && Put(o'.value, 3, "Three").0.entries == [(2, "Two"), (3, "Three")]
  {
    var a := Cache(2, [(1, "One"), (2, "Two")]);
    var b := Cache(2, [(2, "Two"), (1, "One")]);
    var b1 := Get(b, 1).1;
    assert Without(b.entries, 1) == [(2, "Two")];
    assert b1.entries == [(2, "Two"), (1, "One")];
    var b2 := Get(b1, 2).1;
    assert Without(b1.entries, 2) == [(1, "One")];
    assert b2.entries == [(1, "One"), (2, "Two")];
    assert WalkGets(a.entries[1..], b1) == WalkGets([], b2);
    assert ([(2, "Two"), (1, "One")] + [(3, "Three")])[1..] == [(1, "One"), (3, "Three")];
    assert ([(1, "One"), (2, "Two")] + [(3, "Three")])[1..] == [(2, "Two"), (3, "Three")];
  }

  /** The demonstration, step by step: capacity 3, then put 1, 2 and 3. */
  lemma DemoFill()
    ensures New<int, string>(3) == Ok(Cache(3, []))
    ensures Put(Put(Put(Cache(3, []), 1, "One").0, 2, "Two").0, 3, "Three").0
            == Cache(3, [(1, "One"), (2, "Two"), (3, "Three")])
  {
    var c0: Cache<int, string> := Cache(3, []);
    var c1 := Put(c0, 1, "One").0;
    assert c1.entries == [(1, "One")];
    var c2 := Put(c1, 2, "Two").0;
    assert Lookup(c1.entries, 2) == None;
    assert c2.entries == [(1, "One"), (2, "Two")];
    assert Lookup(c2.entries, 3) == None;
  }

  lemma WithoutAbsent<K, V>(es: seq<(K, V)>, k: K)
    requires k !in Keys(es)
    ensures Without(es, k) == es
  {
    if |es| > 0 {
      assert Keys(es)[0] == es[0].0;
      assert Keys(es[1..]) == Keys(es)[1..];
      WithoutAbsent(es[1..], k);
    }
  }

  /** `get(1)` finds "One" and makes 1 the most recently used key. */
  lemma DemoGet()
    ensures Get(Cache(3, [(1, "One"), (2, "Two"), (3, "Three")]), 1)
            == (Some("One"), Cache(3, [(2, "Two"), (3, "Three"), (1, "One")]))
  {
    var es := [(1, "One"), (2, "Two"), (3, "Three")];
    var rest := [(2, "Two"), (3, "Three")];
    assert es[1..] == rest;
    assert Keys(rest) == [2, 3];
    WithoutAbsent(rest, 1);
    assert Without(es, 1) == rest;
    assert rest + [(1, "One")] == [(2, "Two"), (3, "Three"), (1, "One")];
  }

  /** `put(4)` then evicts 2, the least recently used key, and `put(5)` evicts 3. */
  lemma DemoEvict()
    ensures Put(Cache(3, [(2, "Two"), (3, "Three"), (1, "One")]), 4, "Four").0
            == Cache(3, [(3, "Three"), (1, "One"), (4, "Four")])
    ensures Put(Cache(3, [(3, "Three"), (1, "One"), (4, "Four")]), 5, "Five").0
            == Cache(3, [(1, "One"), (4, "Four"), (5, "Five")])
  {
    var es := [(2, "Two"), (3, "Three"), (1, "One")];
    assert Lookup(es, 4) == None;
    assert (es + [(4, "Four")])[1..] == [(3, "Three"), (1, "One"), (4, "Four")];
    var fs := [(3, "Three"), (1, "One"), (4, "Four")];
    assert Lookup(fs, 5) == None;
    assert (fs + [(5, "Five")])[1..] == [(1, "One"), (4, "Four"), (5, "Five")];
  }
}
