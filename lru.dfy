/**
 * The behaviour of android.util.LruCache with every entry of size 1, as a
 * value: the cache is a sequence of (key, value) entries in access order,
 * least recently used first, most recently used last (the order of the
 * LinkedHashMap inside LruCache).
 */
module Lru {
  import opened Wrappers

  /** A cached value (a translator), identified by its creation number:
      the n-th value that create() produced is handle n. */
  type Handle = nat

  datatype Entry<K> = Entry(key: K, value: Handle)

  function Values<K>(es: seq<Entry<K>>): (vs: seq<Handle>)
    ensures |vs| == |es|
  {
    seq(|es|, i requires 0 <= i < |es| => es[i].value)
  }

  lemma ValuesAppend<K>(a: seq<Entry<K>>, b: seq<Entry<K>>)
    ensures Values(a + b) == Values(a) + Values(b)
  {
    assert forall i :: 0 <= i < |a + b| ==> Values(a + b)[i] == (Values(a) + Values(b))[i];
  }

  /** At most one entry per key, as in the map that backs the cache. */
  ghost predicate DistinctKeys<K>(es: seq<Entry<K>>)
  {
    forall i, j :: 0 <= i < j < |es| ==> es[i].key != es[j].key
  }

  ghost predicate Resident<K>(es: seq<Entry<K>>, key: K)
  {
    exists i :: 0 <= i < |es| && es[i].key == key
  }

  /** The position of key, searched from the most recent end. */
  function Find<K(==)>(es: seq<Entry<K>>, key: K): (r: Option<nat>)
    ensures r.Some? ==> r.value < |es| && es[r.value].key == key
    ensures r.None? <==> !Resident(es, key)
  {
    if es == [] then None
    else if es[|es| - 1].key == key then Some(|es| - 1)
    else
      var r := Find(es[..|es| - 1], key);
      assert r.None? ==> forall i :: 0 <= i < |es| - 1 ==> es[..|es| - 1][i] == es[i];
      r
  }

  /** The entries of es with another key than key, in their order. */
  function Without<K(==)>(es: seq<Entry<K>>, key: K): (r: seq<Entry<K>>)
    ensures |r| <= |es|
  {
    if es == [] then []
    else Without(es[..|es| - 1], key) + (if es[|es| - 1].key == key then [] else [es[|es| - 1]])
  }

  lemma {:induction false} WithoutAbsent<K>(es: seq<Entry<K>>, key: K)
    requires !Resident(es, key)
    ensures Without(es, key) == es
  {
    if es != [] {
      var init := es[..|es| - 1];
      assert forall j :: 0 <= j < |init| ==> init[j] == es[j];
      WithoutAbsent(init, key);
      assert es == init + [es[|es| - 1]];
    }
  }

  lemma {:induction false} WithoutAppend<K>(a: seq<Entry<K>>, b: seq<Entry<K>>, key: K)
    ensures Without(a + b, key) == Without(a, key) + Without(b, key)
  {
    if b == [] {
      assert a + b == a;
    } else {
      var ab, init := a + b, b[..|b| - 1];
      assert ab[..|ab| - 1] == a + init;
      assert ab[|ab| - 1] == b[|b| - 1];
      WithoutAppend(a, init, key);
    }
  }

  lemma WithoutSplice<K>(a: seq<Entry<K>>, e: Entry<K>, b: seq<Entry<K>>)
    requires !Resident(a, e.key) && !Resident(b, e.key)
    ensures Without(a + [e] + b, e.key) == a + b
  {
    WithoutAbsent(a, e.key);
    WithoutAbsent(b, e.key);
    assert Without([e], e.key) == [] by {
      assert [e][..0] == [];
    }
    WithoutAppend(a, [e], e.key);
    WithoutAppend(a + [e], b, e.key);
  }

  /** With one entry per key, dropping the key's entry at i is dropping position i. */
  lemma WithoutAt<K>(es: seq<Entry<K>>, i: nat)
    requires i < |es|
    ensures DistinctKeys(es) ==> Without(es, es[i].key) == es[..i] + es[i + 1..]
  {
    if DistinctKeys(es) {
      var a, b := es[..i], es[i + 1..];
      forall j | 0 <= j < |a| ensures a[j].key != es[i].key {
        assert a[j] == es[j];
      }
      forall j | 0 <= j < |b| ensures b[j].key != es[i].key {
        assert b[j] == es[i + 1 + j];
      }
      assert es == a + [es[i]] + b;
      WithoutSplice(a, es[i], b);
    }
  }

  /** An access moves entry i to the most recent end. */
  function Promote<K>(es: seq<Entry<K>>, i: nat): seq<Entry<K>>
    requires i < |es|
  {
    es[..i] + es[i + 1..] + [es[i]]
  }

  /** How many of n entries trimToSize(maxSize) keeps; a negative maxSize keeps none. */
  function Kept(n: nat, maxSize: int): (k: nat)
    ensures k <= n
    ensures maxSize >= 0 ==> k <= maxSize
  {
    if maxSize < 0 then 0 else if maxSize < n then maxSize else n
  }

  /** The entries trimToSize leaves: the most recent ones. */
  function Trim<K>(es: seq<Entry<K>>, maxSize: int): seq<Entry<K>>
  {
    es[|es| - Kept(|es|, maxSize)..]
  }

  /** The entries trimToSize removes, in the order it removes them (eldest first). */
  function Evicted<K>(es: seq<Entry<K>>, maxSize: int): seq<Entry<K>>
  {
    es[..|es| - Kept(|es|, maxSize)]
  }

  /** The outcome of one get: the new entries, the value returned, whether
      create() was called, and the entries removed (each one is handed to
      entryRemoved). */
  datatype Lookup<K> = Lookup(entries: seq<Entry<K>>, value: Handle, created: bool, evicted: seq<Entry<K>>)

  /** LruCache.get(key), where create(key) would return the handle next. */
  function Get<K(==)>(es: seq<Entry<K>>, key: K, next: Handle, maxSize: int): (r: Lookup<K>)
    // a hit returns the resident value, creates nothing and removes nothing
    ensures Resident(es, key) ==>
              !r.created && r.evicted == [] && |r.entries| == |es| &&
              exists i :: 0 <= i < |es| && es[i] == Entry(key, r.value)
    // a miss creates exactly one value and returns it
    ensures !Resident(es, key) ==> r.created && r.value == next
    // the key accessed is resident afterwards, as the most recently used entry
    ensures maxSize > 0 ==> |r.entries| > 0 && r.entries[|r.entries| - 1] == Entry(key, r.value)
    // the size bound holds afterwards
    ensures 0 <= maxSize && |es| <= maxSize ==> |r.entries| <= maxSize
    // an insert over capacity removes exactly the least recently used entry
    ensures !Resident(es, key) && |es| == maxSize > 0 ==> r.evicted == [es[0]]
    ensures !Resident(es, key) && |es| < maxSize ==> r.evicted == []
  {
    match Find(es, key)
    case Some(i) =>
      PromoteOutcome(es, i);
      Lookup(Promote(es, i), es[i].value, false, [])
    case None =>
      var grown := es + [Entry(key, next)];
      TrimOutcome(grown, maxSize);
      Lookup(Trim(grown, maxSize), next, true, Evicted(grown, maxSize))
  }

  /** What a get leaves of the other entries. On a hit, with one entry per
      key, every other entry keeps its translator and its place in the recency
      order, and the key moves to the most recent end. On a miss the new entry
      is appended as the most recent, and the entries removed are the eldest
      ones, in order. */
  lemma GetFrame<K>(es: seq<Entry<K>>, key: K, next: Handle, maxSize: int)
    ensures var r := Get(es, key, next, maxSize);
      (Resident(es, key) && DistinctKeys(es) ==> r.entries == Without(es, key) + [Entry(key, r.value)]) &&
      (!Resident(es, key) ==> r.evicted + r.entries == es + [Entry(key, next)])
  {
    match Find(es, key)
    case Some(i) =>
      PromoteOutcome(es, i);
    case None =>
      TrimOutcome(es + [Entry(key, next)], maxSize);
  }

  lemma PromoteOutcome<K>(es: seq<Entry<K>>, i: nat)
    requires i < |es|
    ensures var p := Promote(es, i);
      |p| == |es| && p[|p| - 1] == es[i] &&
      (DistinctKeys(es) ==> p == Without(es, es[i].key) + [es[i]])
  {
    WithoutAt(es, i);
  }

  lemma TrimOutcome<K>(grown: seq<Entry<K>>, maxSize: int)
    requires |grown| > 0
    ensures var t, e := Trim(grown, maxSize), Evicted(grown, maxSize);
      e + t == grown &&
      (maxSize > 0 ==> |t| > 0 && t[|t| - 1] == grown[|grown| - 1]) &&
      (0 <= maxSize && |grown| <= maxSize + 1 ==> |t| <= maxSize) &&
      (|grown| == maxSize + 1 && maxSize > 0 ==> e == [grown[0]]) &&
      (|grown| <= maxSize ==> e == [])
  {
    TrimSplits(grown, maxSize);
  }

  /** evictAll(): trimToSize(-1) removes every entry, eldest first. */
  lemma EvictAllRemovesEverything<K>(es: seq<Entry<K>>)
    ensures Trim(es, -1) == [] && Evicted(es, -1) == es
  {
  }

  lemma PromotePreservesValues<K>(es: seq<Entry<K>>, i: nat)
    requires i < |es|
    ensures multiset(Values(Promote(es, i))) == multiset(Values(es))
  {
    var a, b, e := es[..i], es[i + 1..], [es[i]];
    assert es == a + e + b;
    ValuesAppend(a + e, b);
    ValuesAppend(a, e);
    ValuesAppend(a + b, e);
    ValuesAppend(a, b);
    calc {
      multiset(Values(Promote(es, i)));
      multiset(Values(a) + Values(b) + Values(e));
      multiset(Values(a)) + multiset(Values(b)) + multiset(Values(e));
      multiset(Values(a) + Values(e) + Values(b));
    }
  }

  lemma PromoteKeepsKeysDistinct<K>(es: seq<Entry<K>>, i: nat)
    requires i < |es| && DistinctKeys(es)
    ensures DistinctKeys(Promote(es, i))
  {
    var p := Promote(es, i);
    forall a, b | 0 <= a < b < |p| ensures p[a].key != p[b].key {
      var ia := if a < i then a else a + 1;
      var ib := if b == |p| - 1 then i else if b < i then b else b + 1;
      assert p[a] == es[ia] && p[b] == es[ib] && ia != ib;
    }
  }

  /** Removing a prefix of the oldest entries is where every trimmed entry goes. */
  lemma TrimSplits<K>(es: seq<Entry<K>>, maxSize: int)
    ensures Evicted(es, maxSize) + Trim(es, maxSize) == es
    ensures multiset(Values(Evicted(es, maxSize))) + multiset(Values(Trim(es, maxSize))) == multiset(Values(es))
  {
    ValuesAppend(Evicted(es, maxSize), Trim(es, maxSize));
  }

  /** Handles are conserved by a get: those resident afterwards plus those removed
      are those resident before plus the one created, if any. */
  lemma {:induction false} GetConservesHandles<K>(es: seq<Entry<K>>, key: K, next: Handle, maxSize: int)
    ensures var r := Get(es, key, next, maxSize);
      multiset(Values(r.entries)) + multiset(Values(r.evicted))
        == multiset(Values(es)) + (if r.created then multiset{next} else multiset{})
  {
    match Find(es, key)
    case Some(i) =>
      PromotePreservesValues(es, i);
    case None =>
      var grown := es + [Entry(key, next)];
      TrimSplits(grown, maxSize);
      ValuesAppend(es, [Entry(key, next)]);
      assert Values([Entry(key, next)]) == [next];
      assert multiset(Values(grown)) == multiset(Values(es)) + multiset{next};
  }

  lemma {:induction false} GetKeepsKeysDistinct<K>(es: seq<Entry<K>>, key: K, next: Handle, maxSize: int)
    requires DistinctKeys(es)
    ensures DistinctKeys(Get(es, key, next, maxSize).entries)
  {
    match Find(es, key)
    case Some(i) =>
      PromoteKeepsKeysDistinct(es, i);
    case None =>
      var grown := es + [Entry(key, next)];
      assert DistinctKeys(grown);
      var t := Trim(grown, maxSize);
      var d := |grown| - |t|;
      forall a, b | 0 <= a < b < |t| ensures t[a].key != t[b].key {
        assert t[a] == grown[a + d] && t[b] == grown[b + d];
      }
  }

  /** A get on the key that is already the most recent entry changes nothing. */
  lemma {:induction false} GetMostRecentIsIdentity<K>(es: seq<Entry<K>>, key: K, next: Handle, maxSize: int)
    requires DistinctKeys(es) && |es| > 0 && es[|es| - 1].key == key
    ensures Get(es, key, next, maxSize) == Lookup(es, es[|es| - 1].value, false, [])
  {
    var i := Find(es, key).value;
    assert i == |es| - 1;
    assert Promote(es, i) == es;
  }

  /** The handles created one after another, 0 up to n - 1. */
  function Issued(n: nat): (m: multiset<Handle>)
    ensures |m| == n
  {
    if n == 0 then multiset{} else Issued(n - 1) + multiset{n - 1}
  }

  lemma {:induction false} IssuedOnce(n: nat, h: Handle)
    ensures Issued(n)[h] == if h < n then 1 else 0
  {
    if n > 0 {
      IssuedOnce(n - 1, h);
    }
  }

  /** The accounting the cache keeps: every handle created so far is resident or
      has been closed. */
  ghost predicate Accounted<K>(es: seq<Entry<K>>, closed: seq<Handle>, created: nat)
  {
    multiset(Values(es)) + multiset(closed) == Issued(created)
  }

  /** Under that accounting each created handle is either resident or closed,
      never both, and it is closed at most once; nothing else appears. */
  lemma {:induction false} ClosedExactlyOnce<K>(es: seq<Entry<K>>, closed: seq<Handle>, created: nat, h: Handle)
    requires Accounted(es, closed, created)
    ensures h < created ==> (h in Values(es) <==> h !in closed)
    ensures multiset(closed)[h] <= 1
    ensures h >= created ==> h !in Values(es) && h !in closed
  {
    IssuedOnce(created, h);
    assert multiset(Values(es))[h] + multiset(closed)[h] == Issued(created)[h];
  }

  /** One get keeps the accounting: the handles it removes are appended to the
      closed log, and the one it creates, if any, is counted. */
  lemma GetKeepsAccounted<K>(es: seq<Entry<K>>, closed: seq<Handle>, created: nat, key: K, maxSize: int)
    requires Accounted(es, closed, created)
    ensures var r := Get(es, key, created, maxSize);
      Accounted(r.entries, closed + Values(r.evicted), created + (if r.created then 1 else 0))
  {
    GetConservesHandles(es, key, created, maxSize);
    StepKeepsAccounted(es, closed, created, Get(es, key, created, maxSize));
  }

  lemma StepKeepsAccounted<K>(es: seq<Entry<K>>, closed: seq<Handle>, created: nat, r: Lookup<K>)
    requires Accounted(es, closed, created)
    requires multiset(Values(r.entries)) + multiset(Values(r.evicted))
               == multiset(Values(es)) + (if r.created then multiset{created} else multiset{})
    ensures Accounted(r.entries, closed + Values(r.evicted), created + (if r.created then 1 else 0))
  {
    var added := if r.created then multiset{created} else multiset{};
    assert Issued(created + (if r.created then 1 else 0)) == Issued(created) + added;
    MultisetStep(multiset(Values(es)), multiset(closed), Issued(created),
                 multiset(Values(r.entries)), multiset(Values(r.evicted)), added);
    assert multiset(closed + Values(r.evicted)) == multiset(closed) + multiset(Values(r.evicted));
  }

  lemma MultisetStep(before: multiset<Handle>, closed: multiset<Handle>, issued: multiset<Handle>,
                     after: multiset<Handle>, removed: multiset<Handle>, added: multiset<Handle>)
    requires before + closed == issued
    requires after + removed == before + added
    ensures after + (closed + removed) == issued + added
  {
    forall h ensures (after + (closed + removed))[h] == (issued + added)[h] {
      assert (after + removed)[h] == (before + added)[h];
      assert (before + closed)[h] == issued[h];
    }
  }

  /** Advancing the trim by one entry: the remaining suffix and the removed prefix. */
  lemma TrimAdvance<K>(start: seq<Entry<K>>, k: nat)
    requires k < |start|
    ensures start[k..][1..] == start[k + 1..]
    ensures Values(start[..k + 1]) == Values(start[..k]) + [start[k].value]
  {
    assert start[..k + 1] == start[..k] + [start[k]];
    ValuesAppend(start[..k], [start[k]]);
    assert Values([start[k]]) == [start[k].value];
  }

  /** Trimming keeps one entry per key and, once the removed handles are
      appended to the closed log, keeps the accounting. */
  lemma TrimKeepsAccounted<K>(es: seq<Entry<K>>, closed: seq<Handle>, created: nat, limit: int)
    requires DistinctKeys(es) && Accounted(es, closed, created)
    ensures DistinctKeys(Trim(es, limit))
    ensures Accounted(Trim(es, limit), closed + Values(Evicted(es, limit)), created)
  {
    var t, e := Trim(es, limit), Evicted(es, limit);
    var d := |e|;
    forall a, b | 0 <= a < b < |t| ensures t[a].key != t[b].key {
      assert t[a] == es[a + d] && t[b] == es[b + d];
    }
    TrimSplits(es, limit);
    MultisetStep(multiset(Values(es)), multiset(closed), Issued(created),
                 multiset(Values(t)), multiset(Values(e)), multiset{});
    assert multiset(closed + Values(e)) == multiset(closed) + multiset(Values(e));
  }

  /** What the cache maintains between calls: within capacity, one entry per
      key, and every created handle resident or closed. */
  ghost predicate Inv<K>(es: seq<Entry<K>>, closed: seq<Handle>, created: nat, maxSize: int)
  {
    0 < maxSize && |es| <= maxSize && DistinctKeys(es) && Accounted(es, closed, created)
  }

  lemma GetKeepsInv<K>(es: seq<Entry<K>>, closed: seq<Handle>, created: nat, key: K, maxSize: int)
    requires Inv(es, closed, created, maxSize)
    ensures var r := Get(es, key, created, maxSize);
      Inv(r.entries, closed + Values(r.evicted), created + (if r.created then 1 else 0), maxSize)
  {
    GetKeepsKeysDistinct(es, key, created, maxSize);
    GetKeepsAccounted(es, closed, created, key, maxSize);
  }
}
