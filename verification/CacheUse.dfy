/**
 What counts as the use of an environment, and that the cache evicts those whose last use
 is longest ago.
 */
module CacheUse {
  import opened CacheModel
  import opened CacheRuns

  datatype LastUse = Never | At(time: nat)

  /** A file is used when it is put into the cache, or found there intact. */
  predicate IsUse(c: Cache, e: Event, hash: nat) {
    e.hash == hash &&
    match e
    case StoreFile(_, _, actual, _) => !Has(c.entries, hash) && actual > 0
    case FetchFile(_, intact, _) => Has(c.entries, hash) && intact
  }

  /** The time of the last use of a file in a run, `before` if there was none. */
  function UsedLast(c: Cache, es: seq<Event>, hash: nat, before: LastUse): LastUse
    decreases |es|
  {
    if es == [] then before
    else UsedLast(Apply(c, es[0]), es[1..], hash, if IsUse(c, es[0], hash) then At(es[0].at) else before)
  }

  /** The entry of a file carries the time of its last use. */
  predicate Carries(c: Cache, hash: nat, use: LastUse) {
    forall x :: x in c.entries && x.hash == hash ==> use == At(x.lastTimeUsed)
  }

  // ---- One event -----------------------------------------------------------------------------------------

  /** A store puts the file in with its size, unless it is there already, and makes room by
      evicting; it changes no other entry. */
  lemma StoreEffect(c: Cache, hash: nat, size: nat, actual: nat, now: nat)
    requires Accounted(c)
    ensures var c' := Store(c, hash, size, actual, now);
      && (Has(c.entries, hash) ==> c' == c)
      && (!Has(c.entries, hash) && actual > 0 ==> Entry(hash, actual, now) in c'.entries)
      && (forall x :: x in c'.entries ==> x in c.entries || (x == Entry(hash, actual, now) && !Has(c.entries, hash) && actual > 0))
      && (|c.entries| + 1 <= c.maxEntries && c.total + size <= c.maxSize ==> forall x :: x in c.entries ==> x in c'.entries)
  {
    if !Has(c.entries, hash) {
      RoomAccounted(c, size, hash);
      if actual > 0 {
        hide Purge;
        InsertEffect(MakeRoom(c, size).entries, Entry(hash, actual, now));
      }
    }
  }

  /** A fetch of an intact file renews the time of its entry, one of a damaged file drops the
      entry, and neither changes another entry. */
  lemma FetchEffect(c: Cache, hash: nat, intact: bool, now: nat, x: Entry)
    requires Accounted(c)
    ensures var c' := Fetch(c, hash, intact, now);
      && (Has(c'.entries, hash) <==> Has(c.entries, hash) && intact)
      && (x.hash != hash ==> (x in c'.entries <==> x in c.entries))
      && (x.hash == hash && x in c'.entries ==> intact && x.lastTimeUsed == now && exists y :: y in c.entries && x == y.(lastTimeUsed := now))
  {
    HasMember(c.entries, hash);
    if Has(c.entries, hash) {
      var e := FindEntry(c.entries, hash);
      HasMember(Fetch(c, hash, intact, now).entries, hash);
      forall y | y in c.entries && y.hash == hash ensures y == e { HashUnique(c.entries, y, e); }
      if intact {
        TouchEffect(c.entries, e, now);
        assert e.(lastTimeUsed := now) in Touch(c.entries, hash, now);
      } else {
        EraseEffect(c.entries, e);
      }
    }
  }

  lemma {:induction false} HashUnique(es: Entries, x: Entry, y: Entry)
    requires Sorted(es) && x in es && y in es && x.hash == y.hash
    ensures x == y
  {
    HeadTail(es);
    if x != es[0] && y != es[0] { HashUnique(es[1..], x, y); }
  }

  lemma StepCarries(c: Cache, e: Event, hash: nat, use: LastUse)
    requires Accounted(c) && Carries(c, hash, use)
    ensures Carries(Apply(c, e), hash, if IsUse(c, e, hash) then At(e.at) else use)
  {
    HasMember(c.entries, hash);
    match e
    case StoreFile(h, size, actual, at) => StoreEffect(c, h, size, actual, at);
    case FetchFile(h, intact, at) =>
      forall x | x in Apply(c, e).entries && x.hash == hash
        ensures (if IsUse(c, e, hash) then At(e.at) else use) == At(x.lastTimeUsed)
      {
        FetchEffect(c, h, intact, at, x);
      }
  }

  // ---- Whole runs -------------------------------------------------------------------------------------------

  lemma {:induction false} RunCarries(c: Cache, es: seq<Event>, hash: nat, use: LastUse)
    requires Accounted(c) && Carries(c, hash, use)
    ensures Carries(Run(c, es), hash, UsedLast(c, es, hash, use))
    decreases |es|
  {
    if es != [] {
      var e := es[0];
      StepCarries(c, e, hash, use);
      RunAccounted(c, [e]);
      assert [e][1..] == [] && Run(c, [e]) == Run(Apply(c, e), []) == Apply(c, e);
      RunCarries(Apply(c, e), es[1..], hash, if IsUse(c, e, hash) then At(e.at) else use);
    }
  }

  /** In every run each entry carries the time at which its file was put in or found intact
      last. */
  lemma EntriesCarryLastUse(maxSize: nat, maxEntries: nat, es: seq<Event>, x: Entry)
    requires x in Run(Empty(maxSize, maxEntries), es).entries
    ensures UsedLast(Empty(maxSize, maxEntries), es, x.hash, Never) == At(x.lastTimeUsed)
  {
    RunCarries(Empty(maxSize, maxEntries), es, x.hash, Never);
  }

  /** Least recently used: in a run with a strictly increasing clock, what a purge evicts was
      used last before everything that it keeps. */
  lemma LeastRecentlyUsed(maxSize: nat, maxEntries: nat, es: seq<Event>, bytes: nat, count: nat, x: Entry, y: Entry)
    requires Increasing(es, 0)
    requires var c := Run(Empty(maxSize, maxEntries), es);
      x in c.entries && x !in Purge(c, bytes, count).entries && y in Purge(c, bytes, count).entries
    ensures var c0 := Empty(maxSize, maxEntries);
      var last, kept := UsedLast(c0, es, x.hash, Never), UsedLast(c0, es, y.hash, Never);
      last.At? && kept.At? && last.time < kept.time
  {
    var c0 := Empty(maxSize, maxEntries);
    var c := Run(c0, es);
    RunKeepsInv(c0, es, 0);
    PurgeIsLeastRecentlyUsed(c.entries, bytes, count);
    PurgeAccounted(c, bytes, count);
    EntriesCarryLastUse(maxSize, maxEntries, es, x);
    EntriesCarryLastUse(maxSize, maxEntries, es, y);
  }
}
