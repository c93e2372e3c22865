/**
 The environment cache as an object: the loops of purge() and the operations that
 change the set of entries and the total size in place.
 */
module EnvironmentCache {
  import opened CacheModel
  import CacheRuns

  /** One round of the eviction loop. */
  lemma NextVictim(es: Entries, lru: Entries, k: nat, bytes: nat, count: nat)
    requires k < |lru| && !(bytes == 0 && count == 0)
    ensures Sum(lru[..k + 1]) == Sum(lru[..k]) + lru[k].size
    ensures var bytes', count' := bytes - Min(bytes, lru[k].size), count - Min(count, 1);
      && Remaining(es, lru[k..], bytes, count) == Remaining(Erase(es, lru[k].hash), lru[k + 1..], bytes', count')
      && EvictCount(lru[k..], bytes, count) == 1 + EvictCount(lru[k + 1..], bytes', count')
  {
    SumLast(lru[..k + 1]);
    assert lru[..k + 1][..k] == lru[..k];
    assert lru[k..][0] == lru[k] && lru[k..][1..] == lru[k + 1..];
  }

  /** The state of the eviction loop after `k` victims, of `freed` bytes together. */
  datatype Loop = Loop(entries: Entries, k: nat, freed: nat, bytes: nat, count: nat)

  ghost predicate OnTheWay(es: Entries, lru: Entries, bytes: nat, count: nat, l: Loop) {
    && l.k <= |lru| && l.freed == Sum(lru[..l.k])
    && Remaining(es, lru, bytes, count) == Remaining(l.entries, lru[l.k..], l.bytes, l.count)
    && EvictCount(lru, bytes, count) == l.k + EvictCount(lru[l.k..], l.bytes, l.count)
    && l.bytes == (if l.freed >= bytes then 0 else bytes - l.freed)
    && l.count == (if l.k >= count then 0 else count - l.k)
  }

  function NextRound(lru: Entries, l: Loop): Loop
    requires l.k < |lru|
  {
    var victim := lru[l.k];
    Loop(Erase(l.entries, victim.hash), l.k + 1, l.freed + victim.size, l.bytes - Min(l.bytes, victim.size), l.count - Min(l.count, 1))
  }

  lemma FirstRound(es: Entries, lru: Entries, bytes: nat, count: nat)
    ensures OnTheWay(es, lru, bytes, count, Loop(es, 0, 0, bytes, count))
  {
    assert lru[0..] == lru && lru[..0] == [];
  }

  lemma Round(es: Entries, lru: Entries, bytes: nat, count: nat, l: Loop)
    requires OnTheWay(es, lru, bytes, count, l) && l.k < |lru| && !(l.bytes == 0 && l.count == 0)
    ensures OnTheWay(es, lru, bytes, count, NextRound(lru, l))
  {
    NextVictim(l.entries, lru, l.k, l.bytes, l.count);
    hide Remaining, EvictCount, Erase, Sum;
  }

  /** The loop ends: nothing is left to visit, or both targets are met. */
  lemma LastRound(es: Entries, lru: Entries, bytes: nat, count: nat, l: Loop)
    requires OnTheWay(es, lru, bytes, count, l) && (l.k == |lru| || (l.bytes == 0 && l.count == 0))
    ensures l.entries == Remaining(es, lru, bytes, count) && l.freed == Sum(lru[..EvictCount(lru, bytes, count)])
    ensures l.bytes == 0 && l.count == 0 <==> Sum(lru) >= bytes && |lru| >= count
  {
    PrefixLess(lru, l.k);
  }

  class EnvironmentCache {
    const maxSize: nat
    const maxEntries: nat
    var cache: Entries
    var totalSize: int

    ghost function View(): CacheRuns.Cache
      reads this
    {
      CacheRuns.Cache(cache, totalSize, maxSize, maxEntries)
    }

    constructor (maxSize: nat, maxEntries: nat)
      ensures View() == CacheRuns.Cache([], 0, maxSize, maxEntries)
    {
      this.maxSize, this.maxEntries := maxSize, maxEntries;
      cache, totalSize := [], 0;
    }

    method LeastRecentlyUsed() returns (lru: Entries)
      ensures lru == ByTime(cache)
    {
      lru := [];
      var i := 0;
      while i < |cache|
        invariant i <= |cache| && lru == ByTime(cache[..i])
      {
        assert cache[..i + 1][..i] == cache[..i];
        lru := InsertByTime(lru, cache[i]);
        i := i + 1;
      }
      assert cache[..i] == cache;
    }

    /** Evicts in the order of last use; tells whether both targets were met. */
    method Purge(bytesToBeFreed: nat, entriesToBeFreed: nat) returns (met: bool)
      modifies this
      ensures View() == CacheRuns.Purge(old(View()), bytesToBeFreed, entriesToBeFreed)
      ensures met <==> Sum(ByTime(old(cache))) >= bytesToBeFreed && |ByTime(old(cache))| >= entriesToBeFreed
    {
      var lru := LeastRecentlyUsed();
      ghost var es := cache;
      FirstRound(es, lru, bytesToBeFreed, entriesToBeFreed);
      hide OnTheWay, Erase, Remaining, EvictCount, Sum, Min;
      var bytes: nat, entries: nat, k: nat := bytesToBeFreed, entriesToBeFreed, 0;
      ghost var l := Loop(cache, k, 0, bytes, entries);
      while k < |lru| && !(bytes == 0 && entries == 0)
        invariant l == Loop(cache, k, l.freed, bytes, entries) && k <= |lru|
        invariant totalSize == old(totalSize) - l.freed
        invariant OnTheWay(es, lru, bytesToBeFreed, entriesToBeFreed, l)
      {
        Round(es, lru, bytesToBeFreed, entriesToBeFreed, l);
        l := NextRound(lru, l);
        var entry := lru[k];
        totalSize := totalSize - entry.size;
        bytes := bytes - Min(bytes, entry.size);
        entries := entries - Min(entries, 1);
        cache := Erase(cache, entry.hash);
        k := k + 1;
      }
      LastRound(es, lru, bytesToBeFreed, entriesToBeFreed, l);
      met := bytes == 0 && entries == 0;
    }

    method IsInCache(hash: nat) returns (found: bool)
      ensures found <==> Has(cache, hash)
    {
      found := false;
      var i := 0;
      while i < |cache| && !found
        invariant i <= |cache|
        invariant Has(cache, hash) <==> found || Has(cache[i..], hash)
        decreases |cache| - i, !found
      {
        if cache[i].hash == hash { found := true; } else { i := i + 1; }
      }
    }

    method StoreInCache(hash: nat, size: nat, actual: nat, now: nat) returns (success: bool)
      modifies this
      ensures View() == CacheRuns.Store(old(View()), hash, size, actual, now)
      ensures success <==> Has(old(cache), hash) || actual > 0
    {
      success := true;
      var found := IsInCache(hash);
      if !found {
        if |cache| + 1 > maxEntries || totalSize + size > maxSize {
          var _ := Purge(if totalSize + size > maxSize then totalSize + size - maxSize else 0,
                         if |cache| + 1 > maxEntries then |cache| + 1 - maxEntries else 0);
        }
        if actual > 0 {
          cache := Insert(cache, Entry(hash, actual, now));
          totalSize := totalSize + actual;
        } else {
          success := false;
        }
      }
    }

    method CopyFromCache(hash: nat, intact: bool, now: nat) returns (success: bool)
      modifies this
      ensures View() == CacheRuns.Fetch(old(View()), hash, intact, now)
      ensures success <==> Has(old(cache), hash) && intact
    {
      var found := IsInCache(hash);
      success := found && intact;
      if found {
        if intact {
          cache := CacheRuns.Touch(cache, hash, now);
        } else {
          totalSize := totalSize - CacheRuns.SizeOf(cache, hash);
          cache := Erase(cache, hash);
        }
      }
    }
  }
}
