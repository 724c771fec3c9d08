/**
 * Why LruCache evicts the least recently used translator: after any history
 * of get calls on an empty cache, the cached keys are the most recently
 * accessed distinct keys, ordered by their last access, least recent first.
 */
module LruHistory {
  import opened Lru

  function Keys<K>(es: seq<Entry<K>>): (ks: seq<K>)
    ensures |ks| == |es|
  {
    seq(|es|, i requires 0 <= i < |es| => es[i].key)
  }

  ghost predicate Distinct<K>(ks: seq<K>)
  {
    forall i, j :: 0 <= i < j < |ks| ==> ks[i] != ks[j]
  }

  /** ks without k, order kept. */
  function Drop<K(==)>(ks: seq<K>, k: K): (r: seq<K>)
    ensures |r| <= |ks|
  {
    if ks == [] then []
    else Drop(ks[..|ks| - 1], k) + (if ks[|ks| - 1] == k then [] else [ks[|ks| - 1]])
  }

  /** The distinct keys of a history of accesses, ordered by their last
      access, least recent first. */
  function Recency<K(==)>(h: seq<K>): seq<K>
  {
    if h == [] then [] else Drop(Recency(h[..|h| - 1]), h[|h| - 1]) + [h[|h| - 1]]
  }

  /** The cache and its creation count after a history of gets on a new cache. */
  datatype Cache<K> = Cache(entries: seq<Entry<K>>, created: nat)

  function Run<K(==)>(h: seq<K>, maxSize: int): Cache<K>
  {
    if h == [] then Cache([], 0)
    else
      var c := Run(h[..|h| - 1], maxSize);
      var r := Get(c.entries, h[|h| - 1], c.created, maxSize);
      Cache(r.entries, c.created + (if r.created then 1 else 0))
  }

  lemma KeysAppend<K>(a: seq<Entry<K>>, b: seq<Entry<K>>)
    ensures Keys(a + b) == Keys(a) + Keys(b)
  {
    assert forall i :: 0 <= i < |a + b| ==> Keys(a + b)[i] == (Keys(a) + Keys(b))[i];
  }

  lemma KeysResident<K>(es: seq<Entry<K>>, k: K)
    ensures Resident(es, k) <==> k in Keys(es)
  {
    if k in Keys(es) {
      var i :| 0 <= i < |es| && Keys(es)[i] == k;
      assert es[i].key == k;
    }
    if Resident(es, k) {
      var i :| 0 <= i < |es| && es[i].key == k;
      assert Keys(es)[i] == k;
    }
  }

  lemma DistinctKeysOf<K>(es: seq<Entry<K>>)
    ensures DistinctKeys(es) <==> Distinct(Keys(es))
  {
    assert forall i :: 0 <= i < |es| ==> Keys(es)[i] == es[i].key;
  }

  lemma {:induction false} KeysWithout<K>(es: seq<Entry<K>>, k: K)
    ensures Keys(Without(es, k)) == Drop(Keys(es), k)
  {
    if es != [] {
      var init, last := es[..|es| - 1], es[|es| - 1];
      KeysWithout(init, k);
      assert Keys(es)[..|es| - 1] == Keys(init);
      var tail: seq<Entry<K>> := if last.key == k then [] else [last];
      KeysAppend(Without(init, k), tail);
      assert Keys(tail) == if last.key == k then [] else [last.key];
    }
  }

  lemma {:induction false} DropAbsent<K>(ks: seq<K>, k: K)
    requires k !in ks
    ensures Drop(ks, k) == ks
  {
    if ks != [] {
      var init := ks[..|ks| - 1];
      assert k !in init by {
        assert forall j :: 0 <= j < |init| ==> init[j] == ks[j];
      }
      DropAbsent(init, k);
      assert ks == init + [ks[|ks| - 1]];
    }
  }

  lemma {:induction false} DropAppend<K>(a: seq<K>, b: seq<K>, k: K)
    ensures Drop(a + b, k) == Drop(a, k) + Drop(b, k)
  {
    if b == [] {
      assert a + b == a;
    } else {
      var ab, init := a + b, b[..|b| - 1];
      assert ab[..|ab| - 1] == a + init;
      assert ab[|ab| - 1] == b[|b| - 1];
      DropAppend(a, init, k);
    }
  }

  /** Dropping a key that occurs once shortens the list by one; what remains
      is still distinct and no longer holds the key. */
  lemma {:induction false} DropDistinct<K>(ks: seq<K>, k: K)
    requires Distinct(ks)
    ensures Distinct(Drop(ks, k)) && k !in Drop(ks, k)
    ensures forall x :: x in Drop(ks, k) <==> x in ks && x != k
    ensures |Drop(ks, k)| == if k in ks then |ks| - 1 else |ks|
  {
    if ks != [] {
      var init, last := ks[..|ks| - 1], ks[|ks| - 1];
      assert ks == init + [last];
      assert Distinct(init);
      assert last !in init;
      DropDistinct(init, k);
      var d := Drop(init, k);
      if last != k {
        assert Drop(ks, k) == d + [last];
        forall i, j | 0 <= i < j < |d + [last]| ensures (d + [last])[i] != (d + [last])[j] {
          if j == |d| {
            assert (d + [last])[i] == d[i];
          } else {
            assert (d + [last])[i] == d[i] && (d + [last])[j] == d[j];
          }
        }
      } else {
        assert Drop(ks, k) == d;
      }
    }
  }

  lemma {:induction false} RecencyDistinct<K>(h: seq<K>)
    ensures Distinct(Recency(h))
    ensures forall k :: k in Recency(h) <==> k in h
  {
    if h != [] {
      var init, k := h[..|h| - 1], h[|h| - 1];
      RecencyDistinct(init);
      var d := Drop(Recency(init), k);
      DropDistinct(Recency(init), k);
      forall i, j | 0 <= i < j < |d + [k]| ensures (d + [k])[i] != (d + [k])[j] {
        if j == |d| {
          assert (d + [k])[i] == d[i];
        } else {
          assert (d + [k])[i] == d[i] && (d + [k])[j] == d[j];
        }
      }
      assert h == init + [k];
    }
  }

  /** A get on a key among the cached ones moves it to the most recent end of
      both the cache and the recency order. */
  lemma HitStep<K>(ks: seq<K>, d: nat, es: seq<Entry<K>>, k: K, v: Handle, after: seq<Entry<K>>)
    requires Distinct(ks) && d <= |ks| && Keys(es) == ks[d..] && k in ks[d..]
    requires after == Without(es, k) + [Entry(k, v)]
    ensures var ks' := Drop(ks, k) + [k]; |ks'| == |ks| && Keys(after) == ks'[d..]
  {
    var old_, cached := ks[..d], ks[d..];
    assert ks == old_ + cached;
    HitKeys(es, k, v, after);
    DropInSuffix(old_, cached, k);
    assert Drop(ks, k) + [k] == old_ + (Drop(cached, k) + [k]);
  }

  lemma HitKeys<K>(es: seq<Entry<K>>, k: K, v: Handle, after: seq<Entry<K>>)
    requires after == Without(es, k) + [Entry(k, v)]
    ensures Keys(after) == Drop(Keys(es), k) + [k]
  {
    KeysWithout(es, k);
    KeysAppend(Without(es, k), [Entry(k, v)]);
    assert Keys([Entry(k, v)]) == [k];
  }

  /** Dropping a key of the later part leaves the earlier part in place. */
  lemma DropInSuffix<K>(old_: seq<K>, cached: seq<K>, k: K)
    requires Distinct(old_ + cached) && k in cached
    ensures Drop(old_ + cached, k) == old_ + Drop(cached, k)
    ensures |Drop(cached, k)| == |cached| - 1
  {
    var ks := old_ + cached;
    var j :| 0 <= j < |cached| && cached[j] == k;
    forall i | 0 <= i < |old_| ensures old_[i] != k {
      assert ks[i] == old_[i] && ks[|old_| + j] == k;
    }
    assert Distinct(cached) by {
      assert forall i :: 0 <= i < |cached| ==> cached[i] == ks[|old_| + i];
    }
    DropAppend(old_, cached, k);
    DropAbsent(old_, k);
    DropDistinct(cached, k);
  }

  /** A get on a key not cached appends it; the cache below capacity keeps
      every entry. */
  lemma MissGrows<K>(ks: seq<K>, d: nat, es: seq<Entry<K>>, k: K, n: Handle, after: seq<Entry<K>>, maxSize: int)
    requires maxSize > 0 && Distinct(ks) && d == |ks| - Kept(|ks|, maxSize)
    requires Keys(es) == ks[d..] && k !in ks[d..] && |es| < maxSize
    requires after == es + [Entry(k, n)]
    ensures var ks' := Drop(ks, k) + [k]; Keys(after) == ks'[|ks'| - Kept(|ks'|, maxSize)..]
  {
    assert d == 0 && ks[d..] == ks;
    DropAbsent(ks, k);
    KeysAppend(es, [Entry(k, n)]);
    assert Keys([Entry(k, n)]) == [k];
  }

  /** A get on a key not cached, with the cache full, removes the eldest
      cached key and appends the new one. */
  lemma MissEvicts<K>(ks: seq<K>, d: nat, es: seq<Entry<K>>, k: K, n: Handle, after: seq<Entry<K>>, maxSize: int)
    requires maxSize > 0 && Distinct(ks) && d == |ks| - Kept(|ks|, maxSize)
    requires Keys(es) == ks[d..] && k !in ks[d..] && |es| == maxSize
    requires after == (es + [Entry(k, n)])[1..]
    ensures var ks' := Drop(ks, k) + [k]; Keys(after) == ks'[|ks'| - Kept(|ks'|, maxSize)..]
  {
    var old_, cached := ks[..d], ks[d..];
    assert ks == old_ + cached;
    var grownKeys := cached + [k];
    MissKeys(es, k, n, after);
    if k in ks {
      MissEvictsSeen(old_, cached, k);
    } else {
      DropAbsent(ks, k);
      assert Drop(ks, k) + [k] == old_ + grownKeys;
    }
  }

  lemma MissKeys<K>(es: seq<Entry<K>>, k: K, n: Handle, after: seq<Entry<K>>)
    requires |es| > 0 && after == (es + [Entry(k, n)])[1..]
    ensures Keys(after) == (Keys(es) + [k])[1..]
  {
    KeysAppend(es, [Entry(k, n)]);
    assert Keys([Entry(k, n)]) == [k];
    assert forall i :: 0 <= i < |after| ==> Keys(after)[i] == (Keys(es) + [k])[1..][i];
  }

  /** The key of a miss that was evicted earlier leaves its old place in the
      recency order. */
  lemma MissEvictsSeen<K>(old_: seq<K>, cached: seq<K>, k: K)
    requires Distinct(old_ + cached) && k in old_
    ensures var ks' := Drop(old_ + cached, k) + [k];
      |ks'| == |old_ + cached| && ks'[|old_|..] == (cached + [k])[1..]
  {
    DistinctPrefix(old_, cached, k);
    DropAppend(old_, cached, k);
    DropAbsent(cached, k);
    DropDistinct(old_, k);
    var rest := Drop(old_, k);
    assert Drop(old_ + cached, k) + [k] == rest + (cached + [k]);
    DropSlice(rest, cached + [k]);
  }

  /** A key of the earlier part of a distinct list is not in the later part. */
  lemma DistinctPrefix<K>(old_: seq<K>, cached: seq<K>, k: K)
    requires Distinct(old_ + cached) && k in old_
    ensures Distinct(old_) && k !in cached
  {
    var ks := old_ + cached;
    assert forall i :: 0 <= i < |old_| ==> old_[i] == ks[i];
    var j :| 0 <= j < |old_| && old_[j] == k;
    forall i | 0 <= i < |cached| ensures cached[i] != k {
      assert ks[j] == k && ks[|old_| + i] == cached[i];
    }
  }

  lemma DropSlice<K>(a: seq<K>, b: seq<K>)
    requires |b| > 0
    ensures (a + b)[|a| + 1..] == b[1..]
  {
  }

  /** One get keeps the cache equal to the most recent part of the recency order. */
  lemma RecencyStep<K>(ks: seq<K>, es: seq<Entry<K>>, k: K, n: Handle, maxSize: int)
    requires maxSize > 0 && Distinct(ks) && DistinctKeys(es) && |es| <= maxSize
    requires Keys(es) == ks[|ks| - Kept(|ks|, maxSize)..]
    ensures var ks', es' := Drop(ks, k) + [k], Get(es, k, n, maxSize).entries;
      DistinctKeys(es') && |es'| <= maxSize && Keys(es') == ks'[|ks'| - Kept(|ks'|, maxSize)..]
  {
    var d := |ks| - Kept(|ks|, maxSize);
    var r := Get(es, k, n, maxSize);
    GetKeepsKeysDistinct(es, k, n, maxSize);
    GetFrame(es, k, n, maxSize);
    KeysResident(es, k);
    if k in ks[d..] {
      HitStep(ks, d, es, k, r.value, r.entries);
    } else if |es| < maxSize {
      MissGrows(ks, d, es, k, n, r.entries, maxSize);
    } else {
      MissEvicts(ks, d, es, k, n, r.entries, maxSize);
    }
  }

  /** The cache after history h holds the most recent part of the recency
      order of h, one entry per key and within capacity. */
  ghost predicate CachesRecent<K>(h: seq<K>, maxSize: int)
  {
    var ks, es := Recency(h), Run(h, maxSize).entries;
    Distinct(ks) && DistinctKeys(es) && |es| <= maxSize &&
    Keys(es) == ks[|ks| - Kept(|ks|, maxSize)..]
  }

  lemma RunStep<K>(h: seq<K>, maxSize: int)
    requires maxSize > 0 && h != [] && CachesRecent(h[..|h| - 1], maxSize)
    ensures CachesRecent(h, maxSize)
  {
    var init, k := h[..|h| - 1], h[|h| - 1];
    var c := Run(init, maxSize);
    assert h[..|h| - 1] == init;
    assert Run(h, maxSize).entries == Get(c.entries, k, c.created, maxSize).entries;
    assert Recency(h) == Drop(Recency(init), k) + [k];
    RecencyStep(Recency(init), c.entries, k, c.created, maxSize);
    RecencyDistinct(h);
  }

  /** After any history of gets on a new cache of positive capacity, the cache
      holds the maxSize most recently accessed distinct keys (all of them when
      there are fewer), least recently accessed first. So the entry a full
      cache evicts on a miss is always the least recently used one. */
  lemma {:induction false} RunKeepsRecency<K>(h: seq<K>, maxSize: int)
    requires maxSize > 0
    ensures CachesRecent(h, maxSize)
  {
    if h == [] {
      assert Run(h, maxSize).entries == [] && Recency(h) == [];
    } else {
      RunKeepsRecency(h[..|h| - 1], maxSize);
      RunStep(h, maxSize);
    }
  }

  /** A miss on a full cache removes the key whose last access is the oldest
      among the maxSize most recently accessed keys. */
  lemma EvictsLeastRecentlyUsed<K>(h: seq<K>, k: K, maxSize: int)
    requires maxSize > 0
    requires !Resident(Run(h, maxSize).entries, k) && |Run(h, maxSize).entries| == maxSize
    ensures var c, ks := Run(h, maxSize), Recency(h);
      |ks| >= maxSize && |Get(c.entries, k, c.created, maxSize).evicted| == 1 &&
      Get(c.entries, k, c.created, maxSize).evicted[0].key == ks[|ks| - maxSize]
  {
    RunKeepsRecency(h, maxSize);
    var es := Run(h, maxSize).entries;
    assert Keys(es)[0] == es[0].key;
  }
}
