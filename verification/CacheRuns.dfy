/**
 Storing and fetching environments, and what holds in every run of the cache.
 */
module CacheRuns {
  import opened CacheModel

  datatype Cache = Cache(entries: Entries, total: int, maxSize: nat, maxEntries: nat)

  function Excess(a: int, limit: nat): nat { if a > limit then a - limit else 0 }

  /** purge(): evicts in the order of last use until both targets are met. */
  function Purge(c: Cache, bytes: nat, count: nat): Cache {
    var lru := ByTime(c.entries);
    c.(entries := Remaining(c.entries, lru, bytes, count), total := c.total - Sum(lru[..EvictCount(lru, bytes, count)]))
  }

  /** The cache after the purge that precedes a store. */
  function MakeRoom(c: Cache, size: nat): Cache {
    if |c.entries| + 1 > c.maxEntries || c.total + size > c.maxSize
    then Purge(c, Excess(c.total + size, c.maxSize), Excess(|c.entries| + 1, c.maxEntries)) else c
  }

  /** storeInCache() for a file announced with `size`, of which `actual` bytes were copied. */
  function Store(c: Cache, hash: nat, size: nat, actual: nat, now: nat): Cache {
    if Has(c.entries, hash) then c
    else
      var c1 := MakeRoom(c, size);
      if actual > 0 then c1.(entries := Insert(c1.entries, Entry(hash, actual, now)), total := c1.total + actual)
      else c1
  }

  function Touch(es: Entries, hash: nat, now: nat): Entries {
    if es == [] then []
    else if es[0].hash == hash then [es[0].(lastTimeUsed := now)] + es[1..]
    else [es[0]] + Touch(es[1..], hash, now)
  }

  function SizeOf(es: Entries, hash: nat): nat
    requires Has(es, hash)
  {
    if es[0].hash == hash then es[0].size else SizeOf(es[1..], hash)
  }

  /** copyFromCache(); `intact` tells whether the file still has its hash. */
  function Fetch(c: Cache, hash: nat, intact: bool, now: nat): Cache {
    if !Has(c.entries, hash) then c
    else if intact then c.(entries := Touch(c.entries, hash, now))
    else c.(entries := Erase(c.entries, hash), total := c.total - SizeOf(c.entries, hash))
  }

  // ---- Invariant ----------------------------------------------------------------------------

  predicate UsedBefore(es: Entries, now: nat) {
    forall e :: e in es ==> e.lastTimeUsed < now
  }

  /** Hashes are unique and the total is the sum of the stored sizes. */
  predicate Accounted(c: Cache) { Sorted(c.entries) && c.total == Sum(c.entries) }

  /** And no two entries were used last at the same time. */
  predicate Inv(c: Cache, now: nat) {
    Accounted(c) && DistinctTimes(c.entries) && UsedBefore(c.entries, now)
  }

  predicate WithinLimits(c: Cache) {
    c.total <= c.maxSize && |c.entries| <= c.maxEntries
  }

  lemma PurgeAccounted(c: Cache, bytes: nat, count: nat)
    requires Accounted(c)
    ensures var c' := Purge(c, bytes, count);
      Accounted(c') && forall x :: x in c'.entries ==> x in c.entries
  {
    var lru := ByTime(c.entries);
    ByTimeSorted(c.entries);
    RemainingSorted(c.entries, lru, bytes, count);
    RemainingSize(c.entries, lru, bytes, count);
    forall x | x in Remaining(c.entries, lru, bytes, count) ensures x in c.entries {
      RemainingMember(c.entries, lru, bytes, count, x);
    }
  }

  lemma {:induction false} HasMember(es: Entries, hash: nat)
    ensures Has(es, hash) <==> exists e :: e in es && e.hash == hash
  {
    if es != [] {
      HeadTail(es);
      HasMember(es[1..], hash);
    }
  }

  lemma HasLess(es: Entries, fs: Entries, hash: nat)
    requires !Has(es, hash) && forall x :: x in fs ==> x in es
    ensures !Has(fs, hash)
  {
    HasMember(es, hash);
    HasMember(fs, hash);
  }

  lemma RoomAccounted(c: Cache, size: nat, hash: nat)
    requires Accounted(c) && !Has(c.entries, hash)
    ensures var c' := MakeRoom(c, size);
      Accounted(c') && !Has(c'.entries, hash) && forall x :: x in c'.entries ==> x in c.entries
  {
    PurgeAccounted(c, Excess(c.total + size, c.maxSize), Excess(|c.entries| + 1, c.maxEntries));
    HasLess(c.entries, MakeRoom(c, size).entries, hash);
  }

  lemma StoreAccounted(c: Cache, hash: nat, size: nat, actual: nat, now: nat)
    requires Accounted(c)
    ensures var c' := Store(c, hash, size, actual, now);
      Accounted(c') && forall x :: x in c'.entries ==> x in c.entries || x == Entry(hash, actual, now)
  {
    if !Has(c.entries, hash) {
      RoomAccounted(c, size, hash);
      hide Purge;
      InsertEffect(MakeRoom(c, size).entries, Entry(hash, actual, now));
    }
  }

  /** A new entry was used later than all others. */
  lemma StoreKeepsInv(c: Cache, hash: nat, size: nat, actual: nat, now: nat)
    requires Inv(c, now)
    ensures Inv(Store(c, hash, size, actual, now), now + 1)
  {
    StoreAccounted(c, hash, size, actual, now);
    hide Store, Accounted;
  }

  lemma {:induction false} FindEntry(es: Entries, hash: nat) returns (e: Entry)
    requires Has(es, hash)
    ensures e in es && e.hash == hash && SizeOf(es, hash) == e.size
  {
    if es[0].hash == hash {
      e := es[0];
    } else {
      e := FindEntry(es[1..], hash);
    }
  }

  lemma {:induction false} TouchEffect(es: Entries, e: Entry, now: nat)
    requires Sorted(es) && e in es
    ensures var r := Touch(es, e.hash, now);
      && Sorted(r) && Sum(r) == Sum(es) && |r| == |es|
      && forall x :: x in r <==> (x in es && x != e) || x == e.(lastTimeUsed := now)
  {
    HeadTail(es);
    if es[0].hash == e.hash {
      ConsTail(es[0].(lastTimeUsed := now), es[1..]);
    } else {
      TouchEffect(es[1..], e, now);
      ConsTail(es[0], Touch(es[1..], e.hash, now));
    }
  }

  lemma FetchAccounted(c: Cache, hash: nat, intact: bool, now: nat)
    requires Accounted(c)
    ensures Accounted(Fetch(c, hash, intact, now))
  {
    if Has(c.entries, hash) {
      var e := FindEntry(c.entries, hash);
      if intact { TouchEffect(c.entries, e, now); } else { EraseEffect(c.entries, e); }
    }
  }

  lemma FetchKeepsInv(c: Cache, hash: nat, intact: bool, now: nat)
    requires Inv(c, now)
    ensures Inv(Fetch(c, hash, intact, now), now + 1)
  {
    FetchAccounted(c, hash, intact, now);
    if Has(c.entries, hash) {
      var e := FindEntry(c.entries, hash);
      if intact { TouchEffect(c.entries, e, now); } else { EraseEffect(c.entries, e); }
    }
  }

  // ---- Whole runs ------------------------------------------------------------------------------

  datatype Event =
    | StoreFile(hash: nat, size: nat, actual: nat, at: nat)
    | FetchFile(hash: nat, intact: bool, at: nat)

  function Apply(c: Cache, e: Event): Cache {
    match e
    case StoreFile(hash, size, actual, at) => Store(c, hash, size, actual, at)
    case FetchFile(hash, intact, at) => Fetch(c, hash, intact, at)
  }

  /** The clock is strictly increasing from one event to the next. */
  predicate Increasing(es: seq<Event>, now: nat) {
    es == [] || (es[0].at >= now && Increasing(es[1..], es[0].at + 1))
  }

  function Run(c: Cache, es: seq<Event>): Cache
    decreases |es|
  {
    if es == [] then c else Run(Apply(c, es[0]), es[1..])
  }

  function End(es: seq<Event>, now: nat): nat {
    if es == [] then now else End(es[1..], es[0].at + 1)
  }

  lemma {:induction false} RunKeepsInv(c: Cache, es: seq<Event>, now: nat)
    requires Inv(c, now) && Increasing(es, now)
    ensures Inv(Run(c, es), End(es, now))
    decreases |es|
  {
    if es != [] {
      var e := es[0];
      assert Inv(c, e.at);
      if e.StoreFile? { StoreKeepsInv(c, e.hash, e.size, e.actual, e.at); } else { FetchKeepsInv(c, e.hash, e.intact, e.at); }
      RunKeepsInv(Apply(c, e), es[1..], e.at + 1);
    }
  }

  lemma {:induction false} RunAccounted(c: Cache, es: seq<Event>)
    requires Accounted(c)
    ensures Accounted(Run(c, es))
    decreases |es|
  {
    if es != [] {
      var e := es[0];
      if e.StoreFile? { StoreAccounted(c, e.hash, e.size, e.actual, e.at); } else { FetchAccounted(c, e.hash, e.intact, e.at); }
      RunAccounted(Apply(c, e), es[1..]);
    }
  }

  function Empty(maxSize: nat, maxEntries: nat): Cache { Cache([], 0, maxSize, maxEntries) }

  /** Accounting: in every run from the empty cache, whatever the clock does, the total is
      the sum of the stored sizes and hashes stay unique. */
  lemma RunAccounting(maxSize: nat, maxEntries: nat, es: seq<Event>)
    ensures var c := Run(Empty(maxSize, maxEntries), es); c.total == Sum(c.entries) && Sorted(c.entries)
  {
    RunAccounted(Empty(maxSize, maxEntries), es);
  }

  /** What the purge before a store is asked to free is there among the entries it visits. */
  predicate CanMakeRoom(c: Cache, size: nat) {
    Excess(c.total + size, c.maxSize) <= Sum(ByTime(c.entries)) && Excess(|c.entries| + 1, c.maxEntries) <= |ByTime(c.entries)|
  }

  /** Limits: whatever the run was and whatever the clock does, storing a file of the
      announced size respects both limits afterwards if and only if the entries that
      purge() visits are enough to make room; under a strictly increasing clock that is if
      and only if the file alone respects them. */
  lemma StoreRespectsLimitsIff(maxSize: nat, maxEntries: nat, es: seq<Event>, hash: nat, size: nat, at: nat)
    requires size > 0 && !Has(Run(Empty(maxSize, maxEntries), es).entries, hash)
    ensures var c := Run(Empty(maxSize, maxEntries), es);
      && (WithinLimits(Store(c, hash, size, size, at)) <==> CanMakeRoom(c, size))
      && (Increasing(es, 0) ==> (CanMakeRoom(c, size) <==> size <= maxSize && maxEntries >= 1))
  {
    var c := Run(Empty(maxSize, maxEntries), es);
    RunAccounted(Empty(maxSize, maxEntries), es);
    RunLimits(Empty(maxSize, maxEntries), es);
    StoreLimits(c, hash, size, at);
    if Increasing(es, 0) {
      RunKeepsInv(Empty(maxSize, maxEntries), es, 0);
      ByTimeComplete(c.entries);
    }
  }

  lemma {:induction false} RunLimits(c: Cache, es: seq<Event>)
    ensures Run(c, es).maxSize == c.maxSize && Run(c, es).maxEntries == c.maxEntries
    decreases |es|
  {
    if es != [] { RunLimits(Apply(c, es[0]), es[1..]); }
  }

  /** There is room after the purge exactly when there can be. */
  lemma RoomLimits(c: Cache, size: nat)
    requires Accounted(c)
    ensures var c1 := MakeRoom(c, size);
      c1.total + size <= c.maxSize && |c1.entries| + 1 <= c.maxEntries <==> CanMakeRoom(c, size)
  {
    var bytes, count := Excess(c.total + size, c.maxSize), Excess(|c.entries| + 1, c.maxEntries);
    PurgeAccounted(c, bytes, count);
    SubsetSum(Purge(c, bytes, count).entries, c.entries);
    PurgeMeetsIff(c.entries, bytes, count);
    hide Remaining, ByTime, EvictCount, Sum, Sorted;
  }

  lemma StoreLimits(c: Cache, hash: nat, size: nat, now: nat)
    requires Accounted(c) && !Has(c.entries, hash) && size > 0
    ensures WithinLimits(Store(c, hash, size, size, now)) <==> CanMakeRoom(c, size)
  {
    RoomAccounted(c, size, hash);
    RoomLimits(c, size);
    assert MakeRoom(c, size).maxSize == c.maxSize && MakeRoom(c, size).maxEntries == c.maxEntries;
    hide MakeRoom, CanMakeRoom, Sum;
    InsertEffect(MakeRoom(c, size).entries, Entry(hash, size, now));
  }

  /** Two files stored at the same time: purge() visits only one of them, and although two
      entries are to be freed for the next file, only one is. */
  lemma TiesAreSkipped(t: nat)
    ensures var es := [StoreFile(1, 5, 5, t), StoreFile(2, 5, 5, t)];
      var c := Run(Empty(10, 2), es);
      && c.entries == [Entry(1, 5, t), Entry(2, 5, t)]
      && Purge(c, 10, 2).entries == [Entry(2, 5, t)]
      && !WithinLimits(Store(c, 3, 10, 10, t + 1))
  {
    var a, b := Entry(1, 5, t), Entry(2, 5, t);
    var first, second := StoreFile(1, 5, 5, t), StoreFile(2, 5, 5, t);
    assert [first, second][1..] == [second] && [second][1..] == [];
    var c1 := Apply(Empty(10, 2), first);
    assert c1.entries == [a];
    var c2 := Apply(c1, second);
    TieOrder(a, b);
    assert c2.entries == [a, b];
    assert Run(c1, [second]) == c2;
    assert Run(Empty(10, 2), [first, second]) == c2;
    assert Accounted(c2) by { RunAccounted(Empty(10, 2), [first, second]); }
    StoreLimits(c2, 3, 10, t + 1);
  }

  lemma TieOrder(a: Entry, b: Entry)
    requires a.lastTimeUsed == b.lastTimeUsed && a.hash < b.hash && a.size == b.size == 5
    ensures ByTime([a, b]) == [a] && Sum([a]) == 5
    ensures !Has([a], b.hash) && !Has([a, b], b.hash + 1) && Insert([a], b) == [a, b]
    ensures Remaining([a, b], [a], 10, 2) == [b]
  {
    assert [a, b][..1] == [a] && [a][..0] == [] && [a][1..] == [] && [a, b][1..] == [b] && [b][1..] == [];
    assert ByTime([a]) == [a];
    assert Erase([a, b], a.hash) == [b];
    HasMember([a, b], b.hash + 1);
    assert Insert([], b) == [b];
    assert Insert([a], b) == [a] + Insert([a][1..], b);
  }
}
