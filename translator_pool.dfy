/**
 * The view model's `translators` field: an android.util.LruCache of at most
 * NUM_TRANSLATORS translators keyed by TranslatorOptions, whose create()
 * builds a translator for the options and whose entryRemoved() closes every
 * translator the cache lets go of, whether by eviction or by evictAll().
 */
module TranslatorPool {
  import opened Wrappers
  import opened Lru

  const NUM_TRANSLATORS: nat := 3

  /** The cache key: a (source language code, target language code) pair. */
  datatype TranslatorOptions = TranslatorOptions(sourceLanguage: string, targetLanguage: string)

  class Translators {
    const maxSize: nat
    /** The cached translators, least recently used first. */
    var entries: seq<Entry<TranslatorOptions>>
    /** How many translators create() has built; the next one is handle createCount. */
    var createCount: nat
    /** The translators close() was called on, in call order. */
    var closed: seq<Handle>

    ghost predicate Valid()
      reads this
    {
      Inv(entries, closed, createCount, maxSize)
    }

    constructor (maxSize: nat)
      requires 0 < maxSize
      ensures Valid()
      ensures this.maxSize == maxSize && entries == [] && closed == [] && createCount == 0
    {
      this.maxSize := maxSize;
      entries := [];
      createCount := 0;
      closed := [];
    }

    /** create(key): Translation.getClient(key) builds a new translator. */
    method Create(key: TranslatorOptions) returns (t: Handle)
      modifies this`createCount
      ensures t == old(createCount) && createCount == old(createCount) + 1
    {
      t := createCount;
      createCount := createCount + 1;
    }

    /** entryRemoved(evicted, key, oldValue, newValue): closes oldValue whatever
        the reason for the removal. */
    method EntryRemoved(evicted: bool, key: TranslatorOptions, oldValue: Handle, newValue: Option<Handle>)
      modifies this`closed
      ensures closed == old(closed) + [oldValue]
    {
      closed := closed + [oldValue];
    }

    /** trimToSize(limit): removes the eldest entries until at most limit remain
        (none when limit is negative), handing each to entryRemoved. */
    method TrimToSize(limit: int)
      modifies this`entries, this`closed
      ensures entries == Trim(old(entries), limit)
      ensures closed == old(closed) + Values(Evicted(old(entries), limit))
    {
      ghost var start, closed0 := entries, closed;
      ghost var k: nat := 0;
      while |entries| > limit && entries != []
        invariant k <= |start| && entries == start[k..]
        invariant closed == closed0 + Values(start[..k])
        invariant |start| - k >= Kept(|start|, limit)
        decreases |entries|
      {
        var eldest := entries[0];
        TrimAdvance(start, k);
        entries := entries[1..];
        EntryRemoved(true, eldest.key, eldest.value, None);
        k := k + 1;
      }
    }

    /** get(key): a resident translator is returned and becomes the most recently
        used; otherwise create(key) builds one, it is inserted as the most recently
        used, and the cache is trimmed back to maxSize. */
    method Get(key: TranslatorOptions) returns (t: Handle)
      requires Valid()
      modifies this
      ensures Valid()
      ensures var r := Lru.Get(old(entries), key, old(createCount), maxSize);
        t == r.value && entries == r.entries &&
        closed == old(closed) + Values(r.evicted) &&
        createCount == old(createCount) + (if r.created then 1 else 0)
    {
      ghost var r := Lru.Get(entries, key, createCount, maxSize);
      ghost var closed', created' := closed + Values(r.evicted), createCount + (if r.created then 1 else 0);
      GetKeepsInv(entries, closed, createCount, key, maxSize);
      assert Inv(r.entries, closed', created', maxSize);
      t := GetSteps(key);
      assert entries == r.entries && closed == closed' && createCount == created';
    }

    /** The steps of get(key), without the cache invariant. */
    method GetSteps(key: TranslatorOptions) returns (t: Handle)
      modifies this`entries, this`closed, this`createCount
      ensures var r := Lru.Get(old(entries), key, old(createCount), maxSize);
        t == r.value && entries == r.entries &&
        closed == old(closed) + Values(r.evicted) &&
        createCount == old(createCount) + (if r.created then 1 else 0)
    {
      var found := Find(entries, key);
      if found.Some? {
        var i := found.value;
        t := entries[i].value;
        entries := Promote(entries, i);
        assert Values<TranslatorOptions>([]) == [];
      } else {
        t := Create(key);
        entries := entries + [Entry(key, t)];
        TrimToSize(maxSize);
      }
    }

    /** evictAll(): trimToSize(-1), which closes every cached translator, eldest first. */
    method EvictAll()
      requires Valid()
      modifies this`entries, this`closed
      ensures Valid()
      ensures entries == [] && closed == old(closed) + Values(old(entries))
    {
      EvictAllRemovesEverything(entries);
      TrimKeepsAccounted(entries, closed, createCount, -1);
      TrimToSize(-1);
    }
  }
}
