/**
 The cache of computing environments: files named by their hash, with a limit on their
 number and on their total size; the least recently used ones are evicted.
 */
module CacheModel {

  datatype Entry = Entry(hash: nat, size: nat, lastTimeUsed: nat)

  /** The entries in the order of std::set, which sorts by hash. */
  type Entries = seq<Entry>

  function Sum(es: Entries): nat {
    if es == [] then 0 else es[0].size + Sum(es[1..])
  }

  predicate Above(es: Entries, hash: nat) {
    forall e :: e in es ==> hash < e.hash
  }

  /** Hashes are ascending, and hence unique. */
  predicate Sorted(es: Entries) {
    es == [] || (Above(es[1..], es[0].hash) && Sorted(es[1..]))
  }

  predicate Has(es: Entries, hash: nat) {
    es != [] && (es[0].hash == hash || Has(es[1..], hash))
  }

  function Insert(es: Entries, e: Entry): Entries {
    if es == [] then [e]
    else if e.hash < es[0].hash then [e] + es
    else [es[0]] + Insert(es[1..], e)
  }

  function Erase(es: Entries, hash: nat): Entries {
    if es == [] then []
    else if es[0].hash == hash then es[1..]
    else [es[0]] + Erase(es[1..], hash)
  }

  lemma ConsTail<T>(x: T, xs: seq<T>)
    ensures ([x] + xs)[0] == x && ([x] + xs)[1..] == xs
    ensures forall y :: y in [x] + xs <==> y == x || y in xs
  {
  }

  lemma HeadTail<T>(xs: seq<T>)
    requires xs != []
    ensures xs == [xs[0]] + xs[1..]
    ensures forall y :: y in xs <==> y == xs[0] || y in xs[1..]
  {
    assert xs == [xs[0]] + xs[1..];
  }

  lemma {:induction false} InsertEffect(es: Entries, e: Entry)
    requires Sorted(es) && !Has(es, e.hash)
    ensures Sorted(Insert(es, e)) && Sum(Insert(es, e)) == Sum(es) + e.size && |Insert(es, e)| == |es| + 1
    ensures forall x :: x in Insert(es, e) <==> x in es || x == e
  {
    if es != [] {
      HeadTail(es);
      if e.hash < es[0].hash {
        ConsTail(e, es);
      } else {
        InsertEffect(es[1..], e);
        ConsTail(es[0], Insert(es[1..], e));
      }
    }
  }

  lemma {:induction false} EraseEffect(es: Entries, e: Entry)
    requires Sorted(es) && e in es
    ensures Sorted(Erase(es, e.hash)) && Sum(Erase(es, e.hash)) == Sum(es) - e.size && |Erase(es, e.hash)| == |es| - 1
    ensures forall x :: x in Erase(es, e.hash) <==> x in es && x != e
  {
    HeadTail(es);
    if es[0].hash != e.hash {
      EraseEffect(es[1..], e);
      ConsTail(es[0], Erase(es[1..], e.hash));
    }
  }

  // ---- Least recently used order ------------------------------------------------------------

  /** Insertion into std::map keyed by the time of last use: a second entry with the same
      time is dropped. */
  function InsertByTime(lru: Entries, e: Entry): Entries {
    if lru == [] then [e]
    else if e.lastTimeUsed < lru[0].lastTimeUsed then [e] + lru
    else if e.lastTimeUsed == lru[0].lastTimeUsed then lru
    else [lru[0]] + InsertByTime(lru[1..], e)
  }

  /** The entries in the order in which purge() visits them. */
  function ByTime(es: Entries): Entries {
    if es == [] then [] else InsertByTime(ByTime(es[..|es| - 1]), es[|es| - 1])
  }

  predicate Later(es: Entries, t: nat) {
    forall e :: e in es ==> t < e.lastTimeUsed
  }

  predicate TimeSorted(lru: Entries) {
    lru == [] || (Later(lru[1..], lru[0].lastTimeUsed) && TimeSorted(lru[1..]))
  }

  predicate UsedAt(es: Entries, t: nat) {
    exists e :: e in es && e.lastTimeUsed == t
  }

  /** No two entries were used last at the same time. */
  predicate DistinctTimes(es: Entries) {
    forall x, y :: x in es && y in es && x.lastTimeUsed == y.lastTimeUsed ==> x == y
  }

  lemma {:induction false} InsertByTimeEffect(lru: Entries, e: Entry)
    requires TimeSorted(lru)
    ensures TimeSorted(InsertByTime(lru, e))
    ensures forall x :: x in InsertByTime(lru, e) ==> x in lru || x == e
    ensures !UsedAt(lru, e.lastTimeUsed) ==>
      && |InsertByTime(lru, e)| == |lru| + 1 && Sum(InsertByTime(lru, e)) == Sum(lru) + e.size
      && (forall x :: x in lru || x == e ==> x in InsertByTime(lru, e))
  {
    if lru != [] {
      HeadTail(lru);
      if e.lastTimeUsed < lru[0].lastTimeUsed {
        ConsTail(e, lru);
      } else if e.lastTimeUsed > lru[0].lastTimeUsed {
        InsertByTimeEffect(lru[1..], e);
        ConsTail(lru[0], InsertByTime(lru[1..], e));
      }
    }
  }

  /** The visiting order is strictly ascending in time. */
  lemma {:induction false} ByTimeSorted(es: Entries)
    ensures TimeSorted(ByTime(es)) && forall x :: x in ByTime(es) ==> x in es
  {
    if es != [] {
      ByTimeSorted(es[..|es| - 1]);
      InsertByTimeEffect(ByTime(es[..|es| - 1]), es[|es| - 1]);
    }
  }

  /** It is complete when no two entries were used last at the same time. */
  lemma {:induction false} ByTimeComplete(es: Entries)
    requires Sorted(es) && DistinctTimes(es)
    ensures |ByTime(es)| == |es| && Sum(ByTime(es)) == Sum(es) && forall x :: x in es ==> x in ByTime(es)
  {
    if es != [] {
      var front, e := es[..|es| - 1], es[|es| - 1];
      SortedFront(es);
      ByTimeSorted(front);
      ByTimeComplete(front);
      assert !UsedAt(ByTime(front), e.lastTimeUsed);
      InsertByTimeEffect(ByTime(front), e);
      SumLast(es);
      assert es == front + [e];
    }
  }

  /** An entry with a time that was seen before is dropped. */
  lemma {:induction false} InsertByTimeTie(lru: Entries, e: Entry)
    requires TimeSorted(lru) && UsedAt(lru, e.lastTimeUsed)
    ensures InsertByTime(lru, e) == lru
  {
    var x :| x in lru && x.lastTimeUsed == e.lastTimeUsed;
    HeadTail(lru);
    if x != lru[0] {
      assert x in lru[1..];
      InsertByTimeTie(lru[1..], e);
    }
  }

  /** The visiting order is complete exactly when no two entries were used last at the same
      time. */
  lemma {:induction false} ByTimeCompleteIff(es: Entries)
    requires Sorted(es)
    ensures |ByTime(es)| <= |es| && Sum(ByTime(es)) <= Sum(es)
    ensures |ByTime(es)| == |es| <==> DistinctTimes(es)
  {
    if es != [] {
      var front, e := es[..|es| - 1], es[|es| - 1];
      SortedFront(es);
      ByTimeCompleteIff(front);
      SumLast(es);
      assert es == front + [e];
      hide Sorted, Sum, ByTime;
      OneMoreByTime(front, e);
      if UsedAt(ByTime(front), e.lastTimeUsed) {
        TieAtEnd(front, e);
      } else if DistinctTimes(front) {
        DistinctAtEnd(front, e);
      } else {
        DistinctFront(front, e);
      }
    }
  }

  lemma OneMoreByTime(front: Entries, e: Entry)
    requires Sorted(front)
    ensures var lru, lru' := ByTime(front), ByTime(front + [e]);
      if UsedAt(lru, e.lastTimeUsed) then lru' == lru else |lru'| == |lru| + 1 && Sum(lru') == Sum(lru) + e.size
  {
    assert (front + [e])[..|front|] == front;
    ByTimeSorted(front);
    if UsedAt(ByTime(front), e.lastTimeUsed) {
      InsertByTimeTie(ByTime(front), e);
    } else {
      InsertByTimeEffect(ByTime(front), e);
    }
  }

  lemma TieAtEnd(front: Entries, e: Entry)
    requires UsedAt(ByTime(front), e.lastTimeUsed) && e !in front
    ensures !DistinctTimes(front + [e])
  {
    ByTimeSorted(front);
    var x :| x in ByTime(front) && x.lastTimeUsed == e.lastTimeUsed;
    assert x in front && x in front + [e] && e in front + [e];
  }

  lemma DistinctAtEnd(front: Entries, e: Entry)
    requires Sorted(front) && DistinctTimes(front) && !UsedAt(ByTime(front), e.lastTimeUsed)
    ensures DistinctTimes(front + [e])
  {
    ByTimeComplete(front);
  }

  lemma DistinctFront(front: Entries, e: Entry)
    requires !DistinctTimes(front)
    ensures !DistinctTimes(front + [e])
  {
    var x, y :| x in front && y in front && x.lastTimeUsed == y.lastTimeUsed && x != y;
    assert x in front + [e] && y in front + [e];
  }

  lemma {:induction false} SortedFront(es: Entries)
    requires Sorted(es) && es != []
    ensures Sorted(es[..|es| - 1]) && es[|es| - 1] !in es[..|es| - 1]
  {
    if |es| > 1 {
      var front := es[..|es| - 1];
      SortedFront(es[1..]);
      assert front[1..] == es[1..][..|es| - 2];
      assert es[|es| - 1] in es[1..];
      HeadTail(front);
      forall x | x in front[1..] ensures x in es[1..] {}
    }
  }

  lemma {:induction false} SumLast(es: Entries)
    requires es != []
    ensures Sum(es) == Sum(es[..|es| - 1]) + es[|es| - 1].size
  {
    if |es| > 1 {
      SumLast(es[1..]);
      assert es[1..][..|es| - 2] == es[..|es| - 1][1..];
    }
  }

  // ---- Purging ------------------------------------------------------------------------------

  function Min(a: nat, b: nat): nat { if a < b then a else b }

  /** How many entries of the visiting order are evicted to free `bytes` and `count`. */
  function EvictCount(lru: Entries, bytes: nat, count: nat): (k: nat)
    ensures k <= |lru|
  {
    if lru == [] || (bytes == 0 && count == 0) then 0
    else 1 + EvictCount(lru[1..], bytes - Min(bytes, lru[0].size), count - Min(count, 1))
  }

  /** The targets are met by evicting the first `k` entries. */
  predicate Frees(lru: Entries, k: nat, bytes: nat, count: nat)
    requires k <= |lru|
  {
    Sum(lru[..k]) >= bytes && k >= count
  }

  /** It is the shortest prefix that meets both targets, or everything. */
  lemma {:induction false} EvictShortest(lru: Entries, bytes: nat, count: nat)
    ensures var k := EvictCount(lru, bytes, count);
      && (forall j :: 0 <= j < k ==> !Frees(lru, j, bytes, count))
      && (Frees(lru, k, bytes, count) || k == |lru|)
  {
    if lru == [] || (bytes == 0 && count == 0) {
      assert lru[..0] == [];
    } else {
      var bytes', count' := bytes - Min(bytes, lru[0].size), count - Min(count, 1);
      EvictShortest(lru[1..], bytes', count');
      var k := EvictCount(lru, bytes, count);
      forall j | 0 <= j < k ensures !Frees(lru, j, bytes, count) {
        if j > 0 { PrefixSum(lru, j); assert !Frees(lru[1..], j - 1, bytes', count'); }
      }
      PrefixSum(lru, k);
    }
  }

  lemma PrefixSum(lru: Entries, j: nat)
    requires 0 < j <= |lru|
    ensures Sum(lru[..j]) == lru[0].size + Sum(lru[1..][..j - 1])
  {
    assert lru[..j][1..] == lru[1..][..j - 1];
  }

  /** The entries that remain. */
  function Remaining(es: Entries, lru: Entries, bytes: nat, count: nat): Entries
    decreases |lru|
  {
    if lru == [] || (bytes == 0 && count == 0) then es
    else Remaining(Erase(es, lru[0].hash), lru[1..], bytes - Min(bytes, lru[0].size), count - Min(count, 1))
  }

  /** After the first victim is gone, the other ones are still there. */
  lemma OthersStay(es: Entries, lru: Entries)
    requires Sorted(es) && TimeSorted(lru) && lru != [] && forall x :: x in lru ==> x in es
    ensures Sorted(Erase(es, lru[0].hash)) && lru[0] in es
    ensures forall x :: x in lru[1..] ==> x in Erase(es, lru[0].hash)
  {
    HeadTail(lru);
    EraseEffect(es, lru[0]);
  }

  lemma {:induction false} RemainingSorted(es: Entries, lru: Entries, bytes: nat, count: nat)
    requires Sorted(es) && TimeSorted(lru) && forall x :: x in lru ==> x in es
    ensures Sorted(Remaining(es, lru, bytes, count))
    decreases |lru|
  {
    if EvictCount(lru, bytes, count) > 0 {
      OthersStay(es, lru);
      RemainingSorted(Erase(es, lru[0].hash), lru[1..], bytes - Min(bytes, lru[0].size), count - Min(count, 1));
    }
  }

  lemma {:induction false} RemainingMember(es: Entries, lru: Entries, bytes: nat, count: nat, x: Entry)
    requires Sorted(es) && TimeSorted(lru) && forall x :: x in lru ==> x in es
    ensures x in Remaining(es, lru, bytes, count) <==> x in es && x !in lru[..EvictCount(lru, bytes, count)]
    decreases |lru|
  {
    var k := EvictCount(lru, bytes, count);
    if k == 0 {
      assert lru[..0] == [];
    } else {
      OthersStay(es, lru);
      EraseEffect(es, lru[0]);
      RemainingMember(Erase(es, lru[0].hash), lru[1..], bytes - Min(bytes, lru[0].size), count - Min(count, 1), x);
      assert lru[..k] == [lru[0]] + lru[1..][..k - 1];
    }
  }

  lemma {:induction false} RemainingSize(es: Entries, lru: Entries, bytes: nat, count: nat)
    requires Sorted(es) && TimeSorted(lru) && forall x :: x in lru ==> x in es
    ensures var r, k := Remaining(es, lru, bytes, count), EvictCount(lru, bytes, count);
      |r| == |es| - k && Sum(r) == Sum(es) - Sum(lru[..k])
    decreases |lru|
  {
    var k := EvictCount(lru, bytes, count);
    if k == 0 {
      assert lru[..0] == [];
    } else {
      OthersStay(es, lru);
      EraseEffect(es, lru[0]);
      RemainingSize(Erase(es, lru[0].hash), lru[1..], bytes - Min(bytes, lru[0].size), count - Min(count, 1));
      PrefixSum(lru, k);
    }
  }

  // ---- Minimality -------------------------------------------------------------------------------

  lemma {:induction false} SubsetSum(es: Entries, fs: Entries)
    requires Sorted(es) && Sorted(fs) && forall x :: x in es ==> x in fs
    ensures Sum(es) <= Sum(fs) && |es| <= |fs|
  {
    if es != [] {
      HeadTail(es);
      EraseEffect(fs, es[0]);
      SubsetSum(es[1..], Erase(fs, es[0].hash));
    }
  }

  /** What is not in `fs` is in `p`: then both together are at least as large. */
  lemma {:induction false} CoverSum(es: Entries, fs: Entries, p: Entries)
    requires Sorted(es) && Sorted(fs) && forall x :: x in es ==> x in fs || x in p
    ensures Sum(es) <= Sum(fs) + Sum(p) && |es| <= |fs| + |p|
    decreases |p|
  {
    if p == [] {
      SubsetSum(es, fs);
    } else {
      HeadTail(p);
      if p[0] in es {
        EraseEffect(es, p[0]);
        CoverSum(Erase(es, p[0].hash), fs, p[1..]);
      } else {
        CoverSum(es, fs, p[1..]);
      }
    }
  }

  lemma {:induction false} TimeAt(lru: Entries, i: nat, j: nat)
    requires TimeSorted(lru) && i < j < |lru|
    ensures lru[i].lastTimeUsed < lru[j].lastTimeUsed
  {
    if i == 0 { assert lru[j] in lru[1..]; } else { TimeAt(lru[1..], i - 1, j - 1); }
  }

  /** Another choice of what stays: it too keeps what was used later. */
  predicate KeepsLater(es: Entries, fs: Entries) {
    && Sorted(fs) && (forall x :: x in fs ==> x in es)
    && forall x, y :: x in es && x !in fs && y in fs ==> x.lastTimeUsed < y.lastTimeUsed
  }

  predicate MeetsTargets(es: Entries, fs: Entries, bytes: nat, count: nat) {
    Sum(fs) + bytes <= Sum(es) && |fs| + count <= |es|
  }

  /** No other choice that meets both targets keeps an entry that is evicted here. */
  lemma EvictedAnyway(es: Entries, fs: Entries, bytes: nat, count: nat, x: Entry)
    requires Sorted(es) && DistinctTimes(es) && KeepsLater(es, fs) && MeetsTargets(es, fs, bytes, count)
    requires x in fs
    ensures x !in ByTime(es)[..EvictCount(ByTime(es), bytes, count)]
  {
    var lru := ByTime(es);
    var k := EvictCount(lru, bytes, count);
    if x in lru[..k] {
      var j :| 0 <= j < k && lru[j] == x;
      ByTimeSorted(es);
      ByTimeComplete(es);
      forall y | y in es ensures y in fs || y in lru[..j] {
        if y !in fs {
          var i :| 0 <= i < |lru| && lru[i] == y;
          if i > j { TimeAt(lru, j, i); }
        }
      }
      CoverSum(es, fs, lru[..j]);
      EvictShortest(lru, bytes, count);
      assert Frees(lru, j, bytes, count);
      assert false;
    }
  }

  /** Purging: what is evicted was used before everything that stays, both targets are met
      if they can be, and it is the least such set: whatever else keeps later entries and
      meets both targets keeps nothing that is evicted here. */
  lemma PurgeIsLeastRecentlyUsed(es: Entries, bytes: nat, count: nat)
    requires Sorted(es) && DistinctTimes(es)
    ensures var r := Remaining(es, ByTime(es), bytes, count);
      && KeepsLater(es, r)
      && (bytes <= Sum(es) && count <= |es| ==> MeetsTargets(es, r, bytes, count))
      && (forall fs, x :: KeepsLater(es, fs) && MeetsTargets(es, fs, bytes, count) && x in fs ==> x in r)
  {
    var lru := ByTime(es);
    var r, k := Remaining(es, lru, bytes, count), EvictCount(lru, bytes, count);
    ByTimeSorted(es);
    ByTimeComplete(es);
    RemainingSorted(es, lru, bytes, count);
    forall x ensures x in r <==> x in es && x !in lru[..k] { RemainingMember(es, lru, bytes, count, x); }
    forall x, y | x in es && x !in r && y in r ensures x.lastTimeUsed < y.lastTimeUsed {
      EvictedBeforeKept(lru, k, x, y);
    }
    PurgeMeetsIff(es, bytes, count);
    forall fs, x | KeepsLater(es, fs) && MeetsTargets(es, fs, bytes, count) && x in fs ensures x in r {
      EvictedAnyway(es, fs, bytes, count, x);
    }
  }

  lemma {:induction false} PrefixLess(lru: Entries, k: nat)
    requires k <= |lru|
    ensures Sum(lru[..k]) <= Sum(lru) && (k == |lru| ==> Sum(lru[..k]) == Sum(lru))
  {
    if k > 0 { PrefixSum(lru, k); PrefixLess(lru[1..], k - 1); } else { assert lru[..0] == []; }
  }

  /** Purging meets its targets exactly when the entries that it visits are enough, whether
      or not some were used last at the same time. */
  lemma PurgeMeetsIff(es: Entries, bytes: nat, count: nat)
    requires Sorted(es)
    ensures MeetsTargets(es, Remaining(es, ByTime(es), bytes, count), bytes, count) <==>
              bytes <= Sum(ByTime(es)) && count <= |ByTime(es)|
    ensures DistinctTimes(es) ==> Sum(ByTime(es)) == Sum(es) && |ByTime(es)| == |es|
  {
    var lru := ByTime(es);
    ByTimeSorted(es);
    RemainingSize(es, lru, bytes, count);
    EvictShortest(lru, bytes, count);
    PrefixLess(lru, EvictCount(lru, bytes, count));
    if DistinctTimes(es) { ByTimeComplete(es); }
  }

  /** All targets that the entries could meet are met if and only if no two entries were
      used last at the same time. */
  lemma TargetsMetIff(es: Entries)
    requires Sorted(es)
    ensures (forall bytes: nat, count: nat :: bytes <= Sum(es) && count <= |es| ==>
               MeetsTargets(es, Remaining(es, ByTime(es), bytes, count), bytes, count)) <==> DistinctTimes(es)
  {
    ByTimeCompleteIff(es);
    if DistinctTimes(es) {
      forall bytes: nat, count: nat | bytes <= Sum(es) && count <= |es|
        ensures MeetsTargets(es, Remaining(es, ByTime(es), bytes, count), bytes, count)
      {
        PurgeMeetsIff(es, bytes, count);
      }
    } else {
      PurgeMeetsIff(es, 0, |es|);
      assert !MeetsTargets(es, Remaining(es, ByTime(es), 0, |es|), 0, |es|);
    }
  }

  lemma {:induction false} EvictedBeforeKept(lru: Entries, k: nat, x: Entry, y: Entry)
    requires TimeSorted(lru) && k <= |lru| && x in lru[..k] && y in lru && y !in lru[..k]
    ensures x.lastTimeUsed < y.lastTimeUsed
  {
    HeadTail(lru);
    assert lru[..k] == [lru[0]] + lru[1..][..k - 1];
    if x != lru[0] { EvictedBeforeKept(lru[1..], k - 1, x, y); }
  }
}
