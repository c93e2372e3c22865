/**
 The table of the elements that one registrar owns, read page by page from the ownership
 storage.  The storage holds the elements of all registrars, and a page that continues a
 download does not look at the home registrar of the element it starts with.
 */
module OwnershipTable {
  import opened PoolHandleOrder
  import opened TableDownload

  function HomeOf(e: Key): nat { if e.Entry? then e.home else 0 }

  predicate ValidEntries(table: seq<Key>) {
    Ascending(table) && forall e :: e in table ==> e.Entry? && |e.handle| >= 1
  }

  /** The entries up to the first one of another registrar. */
  function Leading(s: seq<Key>, home: nat): seq<Key> {
    if s == [] || HomeOf(s[0]) != home then [] else [s[0]] + Leading(s[1..], home)
  }

  function Run(s: seq<Key>): seq<Key> { if s == [] then [] else Leading(s, HomeOf(s[0])) }

  /** The entries that a registrar owns, and those of registrars with larger identifiers. */
  function Owned(s: seq<Key>, home: nat): seq<Key> {
    if s == [] then []
    else (if HomeOf(s[0]) == home then [s[0]] else []) + Owned(s[1..], home)
  }

  function Larger(s: seq<Key>, home: nat): seq<Key> {
    if s == [] then []
    else (if HomeOf(s[0]) > home then [s[0]] else []) + Larger(s[1..], home)
  }

  lemma OwnedStep(s: seq<Key>, home: nat)
    requires s != []
    ensures HomeOf(s[0]) == home ==>
      Owned(s, home) != [] && Owned(s, home)[0] == s[0] && Owned(s, home)[1..] == Owned(s[1..], home)
    ensures HomeOf(s[0]) != home ==> Owned(s, home) == Owned(s[1..], home)
  {
  }

  // ---- The structure of the storage -------------------------------------------------------------

  lemma {:induction false} NoneOwned(s: seq<Key>, home: nat)
    requires forall e :: e in s ==> HomeOf(e) > home
    ensures Owned(s, home) == [] && Larger(s, home) == s && Leading(s, home) == []
  {
    if s != [] {
      assert s[0] in s;
      NoneOwned(s[1..], home);
      assert [s[0]] + s[1..] == s;
    }
  }

  lemma {:induction false} OwnedMembers(s: seq<Key>, home: nat, e: Key)
    ensures e in Owned(s, home) <==> e in s && HomeOf(e) == home
    ensures e in Larger(s, home) <==> e in s && HomeOf(e) > home
  {
    if s != [] {
      OwnedMembers(s[1..], home, e);
      assert e in s <==> e == s[0] || e in s[1..];
    }
  }

  /** A sorted list without smaller registrars is the owned entries, then the larger ones. */
  lemma {:induction false} OwnedFirst(s: seq<Key>, home: nat)
    requires Ascending(s) && forall e :: e in s ==> HomeOf(e) >= home
    ensures s == Owned(s, home) + Larger(s, home)
    ensures Leading(s, home) == Owned(s, home)
  {
    if s != [] {
      assert s == [s[0]] + s[1..] && s[0] in s;
      if HomeOf(s[0]) == home {
        OwnedFirst(s[1..], home);
      } else {
        forall e | e in s ensures HomeOf(e) > home {
          if e in s[1..] { assert Less(s[0], e); } else { assert e == s[0]; }
        }
        NoneOwned(s, home);
      }
    }
  }

  lemma {:induction false} BehindEffect(table: seq<Key>, x: Key)
    requires Ascending(table)
    ensures Ascending(After(table, x)) && forall e :: e in After(table, x) ==> e in table && HomeOf(e) >= HomeOf(x)
    ensures Larger(After(table, x), HomeOf(x)) == Larger(table, HomeOf(x))
  {
    if table != [] {
      if Less(x, table[0]) {
        forall e | e in table ensures HomeOf(e) >= HomeOf(x) {
          assert e == table[0] || e in table[1..];
        }
      } else {
        BehindEffect(table[1..], x);
      }
    }
  }

  lemma {:induction false} BehindOwned(table: seq<Key>, home: nat, q: nat)
    requires Ascending(table) && 1 <= q <= |Owned(table, home)|
    ensures Owned(After(table, Owned(table, home)[q - 1]), home) == Owned(table, home)[q..]
  {
    var own := Owned(table, home);
    var x := own[q - 1];
    NotBeforeFirst(table, home, x);
    OwnedStep(table, home);
    hide After;
    if HomeOf(table[0]) != home {
      BehindOwned(table[1..], home, q);
    } else if q == 1 {
      AfterAll(table[1..], x);
    } else {
      BehindOwned(table[1..], home, q - 1);
      assert own[1..][q - 1..] == own[q..];
    }
  }

  lemma NotBeforeFirst(table: seq<Key>, home: nat, x: Key)
    requires Ascending(table) && x in Owned(table, home)
    ensures table != [] && After(table, x) == After(table[1..], x)
  {
    OwnedMembers(table, home, x);
    KeyOrder(table[0], x, table[0]);
    KeyOrder(x, table[0], x);
  }

  // ---- Pages --------------------------------------------------------------------------------------

  /** The probe from which the first entry of a registrar is searched. */
  function Probe(home: nat): Key { Entry(home, 0, [0]) }

  /** Nothing at all lies behind the probe, but the probe itself is an element. */
  predicate StartMissed(table: seq<Key>, home: nat) {
    Probe(home) in table && After(table, Probe(home)) == []
  }

  function StartPage(table: seq<Key>, home: nat, max: nat): seq<Key> {
    if StartMissed(table, home) then [] else Take(Owned(table, home), Clamp(max))
  }

  function NextPage(table: seq<Key>, home: nat, last: Key, max: nat): seq<Key> {
    Take(Run(After(table, Entry(home, last.id, last.handle))), Clamp(max))
  }

  /** Such a table: the only element is the probe, and its registrar gets nothing. */
  lemma ProbeIsMissed(home: nat)
    ensures var table := [Probe(home)];
      && ValidEntries(table) && StartMissed(table, home) && Owned(table, home) == table
      && forall max: nat :: StartPage(table, home, max) == []
  {
    var table := [Probe(home)];
    assert table[1..] == [];
    KeyOrder(Probe(home), Probe(home), Probe(home));
    assert After([], Probe(home)) == [];
  }

  /** A continuation page holds what is left of the owned elements, as it should; but if
      nothing is left, it holds the elements of the next larger registrar instead. */
  lemma ContinuationIff(table: seq<Key>, home: nat, last: Key, max: nat)
    requires Ascending(table) && max >= 1
    ensures var left := Owned(After(table, Entry(home, last.id, last.handle)), home);
      var page := NextPage(table, home, last, max);
      && (page == Take(left, Clamp(max)) <==> left != [] || Larger(table, home) == [])
      && (HasForeign(page, home) <==> left == [] && Larger(table, home) != [])
  {
    var x := Entry(home, last.id, last.handle);
    var s := After(table, x);
    var page := NextPage(table, home, last, max);
    BehindEffect(table, x);
    OwnedFirst(s, home);
    var left := Owned(s, home);
    if left != [] {
      assert s[0] == left[0];
      OwnedMembers(s, home, s[0]);
      forall e | e in page ensures HomeOf(e) == home { OwnedMembers(s, home, e); }
    } else if Larger(table, home) != [] {
      assert s == Larger(table, home);
      OwnedMembers(table, home, s[0]);
      assert page[0] == s[0] && page[0] in page;
    }
  }

  ghost predicate HasForeign(s: seq<Key>, home: nat) { exists e :: e in s && HomeOf(e) != home }

  // ---- Whole downloads of a table that does not change -----------------------------------------------

  /** The pages of a download that has got to `last`, up to `requests` more of them. */
  function Continue(table: seq<Key>, home: nat, last: Key, max: nat, requests: nat): seq<Key>
    decreases requests
  {
    if requests == 0 then []
    else
      var page := NextPage(table, home, last, max);
      page + if page != [] && |page| == Clamp(max) then Continue(table, home, page[|page| - 1], max, requests - 1) else []
  }

  function DownloadOwned(table: seq<Key>, home: nat, max: nat, requests: nat): seq<Key> {
    if requests == 0 then []
    else
      var page := StartPage(table, home, max);
      page + if page != [] && |page| == Clamp(max) then Continue(table, home, page[|page| - 1], max, requests - 1) else []
  }

  /** What is left of `n` elements after all full pages of `m`. */
  function Remainder(n: nat, m: nat): (r: nat)
    requires m >= 1
    ensures r < m
  {
    if n < m then n else Remainder(n - m, m)
  }

  /** The owned elements fill their pages and another registrar comes behind. */
  predicate PagesComeOut(table: seq<Key>, home: nat, max: nat)
    requires max >= 1
  {
    Owned(table, home) != [] && Remainder(|Owned(table, home)|, Clamp(max)) == 0 && Larger(table, home) != []
  }

  lemma FullPage(table: seq<Key>, home: nat, q: nat, max: nat)
    requires ValidEntries(table) && max >= 1 && 1 <= q < |Owned(table, home)|
    ensures var own := Owned(table, home);
      NextPage(table, home, own[q - 1], max) == Take(own[q..], Clamp(max))
  {
    var own := Owned(table, home);
    OwnedMembers(table, home, own[q - 1]);
    BehindOwned(table, home, q);
    ContinuationIff(table, home, own[q - 1], max);
  }

  lemma AfterLast(table: seq<Key>, home: nat, max: nat)
    requires ValidEntries(table) && max >= 1 && Owned(table, home) != []
    ensures var own := Owned(table, home);
      var page := NextPage(table, home, own[|own| - 1], max);
      if Larger(table, home) == [] then page == [] else page != [] && HasForeign(page, home)
  {
    var own := Owned(table, home);
    OwnedMembers(table, home, own[|own| - 1]);
    BehindOwned(table, home, |own|);
    ContinuationIff(table, home, own[|own| - 1], max);
  }

  lemma Chunk<T>(s: seq<T>, q: nat, m: nat)
    requires 1 <= m && q + m <= |s|
    ensures var page := Take(s[q..], m);
      |page| == m && page[m - 1] == s[q + m - 1] && page + s[q + m..] == s[q..]
  {
  }

  lemma ForeignConcat(a: seq<Key>, b: seq<Key>, home: nat)
    ensures HasForeign(a, home) || HasForeign(b, home) ==> HasForeign(a + b, home)
  {
    if HasForeign(a, home) {
      var e :| e in a && HomeOf(e) != home;
      assert e in a + b;
    } else if HasForeign(b, home) {
      var e :| e in b && HomeOf(e) != home;
      assert e in a + b;
    }
  }

  /** What a download does with its next page. */
  lemma ContinueStep(table: seq<Key>, home: nat, last: Key, max: nat, requests: nat)
    requires requests > 0 && max >= 1
    ensures var page, all := NextPage(table, home, last, max), Continue(table, home, last, max, requests);
      && (|page| == Clamp(max) ==> all == page + Continue(table, home, page[|page| - 1], max, requests - 1))
      && (|page| < Clamp(max) ==> all == page)
  {
    var page := NextPage(table, home, last, max);
    assert page + [] == page;
  }

  lemma RemainderStep(n: nat, q: nat, m: nat)
    requires m >= 1 && q <= n
    ensures Remainder(n - q, m) == if n - q < m then n - q else Remainder(n - (q + m), m)
  {
  }

  /** What a download delivers behind the first `q` owned elements. */
  ghost predicate Outcome(own: seq<Key>, larger: seq<Key>, home: nat, q: nat, m: nat, all: seq<Key>)
    requires q <= |own| && m >= 1
  {
    if Remainder(|own| - q, m) != 0 || larger == [] then all == own[q..] else HasForeign(all, home)
  }

  lemma LongOutcome(own: seq<Key>, larger: seq<Key>, home: nat, q: nat, m: nat, all: seq<Key>)
    requires m >= 1 && q + m <= |own| && Outcome(own, larger, home, q + m, m, all)
    ensures Outcome(own, larger, home, q, m, Take(own[q..], m) + all)
  {
    RemainderStep(|own|, q, m);
    Chunk(own, q, m);
    ForeignConcat(Take(own[q..], m), all, home);
  }

  lemma ShortOutcome(own: seq<Key>, larger: seq<Key>, home: nat, q: nat, m: nat)
    requires m >= 1 && q < |own| < q + m
    ensures Outcome(own, larger, home, q, m, Take(own[q..], m))
  {
    RemainderStep(|own|, q, m);
  }

  lemma LastOutcome(table: seq<Key>, home: nat, max: nat, requests: nat)
    requires ValidEntries(table) && max >= 1 && Owned(table, home) != [] && requests > 0
    ensures var own := Owned(table, home);
      Outcome(own, Larger(table, home), home, |own|, Clamp(max), Continue(table, home, own[|own| - 1], max, requests))
  {
    var own := Owned(table, home);
    var last := own[|own| - 1];
    var page := NextPage(table, home, last, max);
    ContinueStep(table, home, last, max, requests);
    AfterLast(table, home, max);
    RemainderStep(|own|, |own|, Clamp(max));
    hide Owned, NextPage, Larger, ValidEntries, Continue, Remainder, HasForeign;
    if page != [] {
      ForeignConcat(page, Continue(table, home, page[|page| - 1], max, requests - 1), home);
    }
  }

  lemma {:induction false} ContinueIff(table: seq<Key>, home: nat, q: nat, max: nat, requests: nat)
    requires ValidEntries(table) && max >= 1 && 1 <= q <= |Owned(table, home)| && requests > |Owned(table, home)| - q
    ensures var own := Owned(table, home);
      Outcome(own, Larger(table, home), home, q, Clamp(max), Continue(table, home, own[q - 1], max, requests))
    decreases requests
  {
    var own, m := Owned(table, home), Clamp(max);
    hide Owned, NextPage, Larger, ValidEntries, Continue, Outcome, Take;
    if q == |own| {
      LastOutcome(table, home, max, requests);
    } else {
      ContinueStep(table, home, own[q - 1], max, requests);
      FullPage(table, home, q, max);
      TakeLength(own[q..], m);
      if |own| - q >= m {
        Chunk(own, q, m);
        ContinueIff(table, home, q + m, max, requests - 1);
        LongOutcome(own, Larger(table, home), home, q, m, Continue(table, home, own[q + m - 1], max, requests - 1));
      } else {
        ShortOutcome(own, Larger(table, home), home, q, m);
      }
    }
  }

  lemma TakeLength<T>(s: seq<T>, n: nat)
    ensures |Take(s, n)| == if n < |s| then n else |s|
  {
  }

  lemma StartLong(table: seq<Key>, home: nat, max: nat, requests: nat)
    requires max >= 1 && requests > 0 && !StartMissed(table, home) && |Owned(table, home)| >= Clamp(max)
    ensures var own, m := Owned(table, home), Clamp(max);
      DownloadOwned(table, home, max, requests) == Take(own, m) + Continue(table, home, own[m - 1], max, requests - 1)
  {
    var own, m := Owned(table, home), Clamp(max);
    Chunk(own, 0, m);
    assert own[0..] == own;
  }

  lemma StartShort(table: seq<Key>, home: nat, max: nat, requests: nat)
    requires max >= 1 && requests > 0 && !StartMissed(table, home) && |Owned(table, home)| < Clamp(max)
    ensures DownloadOwned(table, home, max, requests) == Owned(table, home)
  {
    assert Owned(table, home) + [] == Owned(table, home);
  }

  lemma WholeOutcome(own: seq<Key>, larger: seq<Key>, home: nat, m: nat, all: seq<Key>)
    requires m >= 1 && !HasForeign(own, home) && Outcome(own, larger, home, 0, m, all)
    ensures all == own <==> Remainder(|own|, m) != 0 || larger == []
  {
    assert own[0..] == own;
  }

  lemma FromStart(own: seq<Key>, larger: seq<Key>, home: nat, m: nat, rest: seq<Key>)
    requires 1 <= m <= |own| && !HasForeign(own, home) && Outcome(own, larger, home, m, m, rest)
    ensures Take(own, m) + rest == own <==> Remainder(|own|, m) != 0 || larger == []
  {
    assert own[0..] == own;
    LongOutcome(own, larger, home, 0, m, rest);
    WholeOutcome(own, larger, home, m, Take(own, m) + rest);
  }

  lemma LongDownload(table: seq<Key>, home: nat, max: nat, requests: nat)
    requires ValidEntries(table) && max >= 1 && !StartMissed(table, home)
    requires Clamp(max) <= |Owned(table, home)| < requests
    ensures DownloadOwned(table, home, max, requests) == Owned(table, home) <==>
              Remainder(|Owned(table, home)|, Clamp(max)) != 0 || Larger(table, home) == []
  {
    hide Owned, Larger, ValidEntries, Continue, Remainder, DownloadOwned, StartMissed, HasForeign, Take, Outcome;
    var own, m := Owned(table, home), Clamp(max);
    StartLong(table, home, max, requests);
    OwnedHasNoForeign(table, home);
    ContinueIff(table, home, m, max, requests - 1);
    FromStart(own, Larger(table, home), home, m, Continue(table, home, own[m - 1], max, requests - 1));
  }

  /** A download delivers exactly the registrar's own elements if and only if its start is
      not missed and its pages do not come out even in front of another registrar's
      elements. */
  lemma OwnedDownloadIff(table: seq<Key>, home: nat, max: nat, requests: nat)
    requires ValidEntries(table) && max >= 1 && requests > |Owned(table, home)|
    ensures DownloadOwned(table, home, max, requests) == Owned(table, home) <==>
              !StartMissed(table, home) && !PagesComeOut(table, home, max)
  {
    if StartMissed(table, home) {
      OwnedMembers(table, home, Probe(home));
    } else {
      hide Owned, Larger, ValidEntries, DownloadOwned, StartMissed;
      if |Owned(table, home)| >= Clamp(max) {
        LongDownload(table, home, max, requests);
      } else {
        StartShort(table, home, max, requests);
      }
    }
  }

  lemma OwnedHasNoForeign(table: seq<Key>, home: nat)
    ensures !HasForeign(Owned(table, home), home)
  {
    forall e | e in Owned(table, home) ensures HomeOf(e) == home { OwnedMembers(table, home, e); }
  }

  /** Such a download need not even end: here registrar 1 owns element 10, registrar 2
      owns element 5, and pages of one element alternate between the two for ever. */
  lemma {:induction false} EndlessDownload(requests: nat)
    ensures var table := [Entry(1, 10, [65]), Entry(2, 5, [65])];
      Ascending(table) && |DownloadOwned(table, 1, 1, requests)| == requests
  {
    var a, b := Entry(1, 10, [65]), Entry(2, 5, [65]);
    var table := [a, b];
    assert table[1..] == [b] && [b][1..] == [];
    assert Ascending([b]);
    assert Owned([], 1) == [];
    assert Owned([b], 1) == [] + [];
    assert table[0] == a && Owned(table, 1) == [a] + Owned(table[1..], 1);
    assert Owned(table, 1) == [a];
    if requests > 0 {
      assert StartPage(table, 1, 1) == [a];
      Alternates(table, true, requests - 1);
    }
  }

  lemma {:induction false} Alternates(table: seq<Key>, own: bool, requests: nat)
    requires table == [Entry(1, 10, [65]), Entry(2, 5, [65])]
    ensures |Continue(table, 1, if own then table[0] else table[1], 1, requests)| == requests
    decreases requests
  {
    if requests > 0 {
      var a, b := table[0], table[1];
      var last := if own then a else b;
      assert table[1..] == [b];
      if own {
        HandleOrder([65], [65], [65]);
        assert After([b], a) == [b] && After(table, a) == [b];
        assert [b][1..] == [] && Leading([b], 2) == [b];
        assert NextPage(table, 1, last, 1) == [b];
      } else {
        assert After(table, Entry(1, 5, [65])) == table;
        assert Leading([b], 1) == [] && Leading(table, 1) == [a];
        assert NextPage(table, 1, last, 1) == [a];
      }
      Alternates(table, !own, requests - 1);
    }
  }

  // ---- The request -------------------------------------------------------------------------------------

  /** The storage's search for the nearest next entry. */
  method FindNearestNext(table: seq<Key>, x: Key) returns (i: nat)
    ensures i <= |table| && table[i..] == After(table, x)
    ensures forall k :: 0 <= k < i ==> !Less(x, table[k])
  {
    i := 0;
    while i < |table| && !Less(x, table[i])
      invariant i <= |table| && After(table[i..], x) == After(table, x)
      invariant forall k :: 0 <= k < i ==> !Less(x, table[k])
    {
      assert table[i..][1..] == table[i + 1..];
      i := i + 1;
    }
  }

  lemma LeadingBack(table: seq<Key>, i: nat, found: nat, home: nat)
    requires 0 < i <= found < |table| && HomeOf(table[i - 1]) == home
    requires Leading(table[i..], home) == table[i..found] + Leading(table[found..], home)
    ensures Leading(table[i - 1..], home) == table[i - 1..found] + Leading(table[found..], home)
  {
    assert table[i - 1..][1..] == table[i..];
    assert Leading(table[i - 1..], home) == [table[i - 1]] + Leading(table[i..], home);
    assert table[i - 1..found] == [table[i - 1]] + table[i..found];
    hide Leading;
    var x, a, b := table[i - 1], table[i..found], Leading(table[found..], home);
    assert [x] + (a + b) == [x] + a + b;
  }

  /** Goes back while the registrar is the same. */
  method GoBack(table: seq<Key>, home: nat, found: nat) returns (i: nat)
    requires found < |table|
    ensures i <= found && Leading(table[i..], home) == table[i..found] + Leading(table[found..], home)
    ensures forall k :: i <= k < found ==> HomeOf(table[k]) == home
    ensures i > 0 ==> HomeOf(table[i - 1]) != home
  {
    i := found;
    assert Leading(table[found..], home) == table[found..found] + Leading(table[found..], home);
    hide Leading;
    while i > 0 && HomeOf(table[i - 1]) == home
      invariant i <= found
      invariant Leading(table[i..], home) == table[i..found] + Leading(table[found..], home)
      invariant forall k :: i <= k < found ==> HomeOf(table[k]) == home
    {
      LeadingBack(table, i, found, home);
      i := i - 1;
    }
  }

  /** Searches the first entry of a registrar: the nearest next of the probe, then back
      while the registrar is the same. */
  method FindFirst(table: seq<Key>, home: nat) returns (i: nat)
    requires ValidEntries(table)
    ensures i <= |table|
    ensures Leading(table[i..], home) == if StartMissed(table, home) then [] else Owned(table, home)
    ensures i < |table| ==> HomeOf(table[i]) == home
  {
    var found := FindNearestNext(table, Probe(home));
    StartEffect(table, home, found);
    if found == |table| {
      NothingFound(table, home);
      return found;
    }
    i := GoBack(table, home, found);
    InFront(table, home, i);
    StartComplete(table, home, i, found);
    if HomeOf(table[i]) != home { i := |table|; }
  }

  lemma NothingFound(table: seq<Key>, home: nat)
    requires After(table, Probe(home)) == []
    requires forall k :: 0 <= k < |table| ==> HomeOf(table[k]) == home ==> table[k] == Probe(home)
    ensures StartMissed(table, home) || Owned(table, home) == []
  {
    if Probe(home) !in table {
      forall e | e in table ensures HomeOf(e) != home {
        var k :| 0 <= k < |table| && table[k] == e;
      }
      NotOwned(table, home);
    }
  }

  lemma {:induction false} OwnedSplit(s: seq<Key>, i: nat, home: nat)
    requires i <= |s|
    ensures Owned(s, home) == Owned(s[..i], home) + Owned(s[i..], home)
  {
    if i == 0 {
      assert s[..0] == [] && s[0..] == s;
    } else {
      assert s[..i][1..] == s[1..][..i - 1] && s[1..][i - 1..] == s[i..];
      OwnedSplit(s[1..], i - 1, home);
    }
  }

  lemma {:induction false} NotOwned(s: seq<Key>, home: nat)
    requires forall e :: e in s ==> HomeOf(e) != home
    ensures Owned(s, home) == []
  {
    if s != [] {
      assert s[0] in s;
      NotOwned(s[1..], home);
    }
  }

  lemma {:induction false} SortedAt(s: seq<Key>, i: nat, j: nat)
    requires Ascending(s) && i < j < |s|
    ensures Less(s[i], s[j])
  {
    if i == 0 { assert s[j] in s[1..]; } else { SortedAt(s[1..], i - 1, j - 1); }
  }

  lemma {:induction false} AllOwned(s: seq<Key>, home: nat)
    requires forall e :: e in s ==> HomeOf(e) == home
    ensures Owned(s, home) == s
  {
    if s != [] {
      assert s[0] in s && s == [s[0]] + s[1..];
      AllOwned(s[1..], home);
    }
  }

  lemma NotBehindProbe(e: Key, home: nat)
    requires e.Entry? && |e.handle| >= 1 && !Less(Probe(home), e)
    ensures HomeOf(e) <= home && (HomeOf(e) == home ==> e == Probe(home))
  {
    if e.home == home { SmallestHandle(e.handle); }
  }

  lemma InFrontOfProbe(table: seq<Key>, home: nat, i: nat)
    requires ValidEntries(table) && i <= |table| && forall k :: 0 <= k < i ==> !Less(Probe(home), table[k])
    ensures forall k :: 0 <= k < i ==> HomeOf(table[k]) <= home && (HomeOf(table[k]) == home ==> table[k] == Probe(home))
  {
    hide Less, Probe, Ascending;
    forall k | 0 <= k < i ensures HomeOf(table[k]) <= home && (HomeOf(table[k]) == home ==> table[k] == Probe(home)) {
      assert table[k] in table;
      NotBehindProbe(table[k], home);
    }
  }

  /** In front of the probe's nearest next there is nothing of the registrar, except an
      element equal to the probe. */
  lemma StartEffect(table: seq<Key>, home: nat, i: nat)
    requires ValidEntries(table) && i <= |table| && table[i..] == After(table, Probe(home))
    requires forall k :: 0 <= k < i ==> !Less(Probe(home), table[k])
    ensures Leading(table[i..], home) == Owned(table[i..], home)
    ensures forall k :: 0 <= k < i ==> HomeOf(table[k]) <= home && (HomeOf(table[k]) == home ==> table[k] == Probe(home))
  {
    InFrontOfProbe(table, home, i);
    hide Less, Owned, Leading, Ascending;
    BehindEffect(table, Probe(home));
    OwnedFirst(table[i..], home);
  }

  lemma SmallestHandle(h: seq<nat>)
    requires |h| >= 1
    ensures h == [0] || HandleLess([0], h)
  {
    if |h| == 1 && h[0] == 0 { assert h == [0]; }
  }

  lemma InFront(table: seq<Key>, home: nat, i: nat)
    requires Ascending(table) && i <= |table|
    requires forall k :: 0 <= k < i ==> HomeOf(table[k]) <= home
    requires i > 0 ==> HomeOf(table[i - 1]) != home
    ensures Owned(table[..i], home) == []
  {
    forall e | e in table[..i] ensures HomeOf(e) != home {
      var k :| 0 <= k < i && table[k] == e;
      if k < i - 1 { SortedAt(table, k, i - 1); }
    }
    NotOwned(table[..i], home);
  }

  lemma StartComplete(table: seq<Key>, home: nat, i: nat, found: nat)
    requires i <= found < |table|
    requires Leading(table[i..], home) == table[i..found] + Leading(table[found..], home)
    requires Leading(table[found..], home) == Owned(table[found..], home)
    requires Owned(table[..i], home) == []
    requires forall k :: i <= k < found ==> HomeOf(table[k]) == home
    ensures Leading(table[i..], home) == Owned(table, home)
  {
    OwnedSplit(table, found, home);
    OwnedSplit(table[..found], i, home);
    assert table[..found][..i] == table[..i] && table[..found][i..] == table[i..found];
    AllOwned(table[i..found], home);
    hide Owned, Leading;
    assert [] + table[i..found] == table[i..found];
  }

  /** getOwnershipHandleTable() */
  method GetOwnershipHandleTable(table: seq<Key>, home: nat, last: Key, start: bool, maxElements: nat)
      returns (page: seq<Key>, cursor: Key, result: bool)
    requires ValidEntries(table)
    ensures page == if start then StartPage(table, home, maxElements) else NextPage(table, home, last, maxElements)
    ensures result <==> page != []
    ensures cursor == if page != [] then page[|page| - 1] else last
  {
    page, cursor, result := [], last, false;
    if maxElements < 1 { return; }
    var i: nat;
    var max := if maxElements > MAX_PAGE then MAX_PAGE else maxElements;
    if start {
      i := FindFirst(table, home);
    } else {
      i := FindNearestNext(table, Entry(home, last.id, last.handle));
    }
    page := CollectRun(table, i, max);
    if page != [] {
      cursor := page[|page| - 1];
      result := true;
    }
  }

  lemma LeadingStep(table: seq<Key>, i: nat, home: nat, page: seq<Key>)
    requires i < |table| && HomeOf(table[i]) == home
    ensures page + [table[i]] + Leading(table[i + 1..], home) == page + Leading(table[i..], home)
  {
    assert table[i..][1..] == table[i + 1..];
  }

  /** Collects entries while the registrar stays the same. */
  method CollectRun(table: seq<Key>, first: nat, max: nat) returns (page: seq<Key>)
    requires first <= |table| && max >= 1
    ensures page == Take(Run(table[first..]), max)
  {
    page := [];
    if first < |table| {
      page := CollectLeading(table, first, HomeOf(table[first]), max);
    }
  }

  method CollectLeading(table: seq<Key>, first: nat, home: nat, max: nat) returns (page: seq<Key>)
    requires first <= |table|
    ensures page == Take(Leading(table[first..], home), max)
  {
    page := [];
    var i := first;
    ghost var goal := Leading(table[first..], home);
    ghost var rest := goal;
    hide Take;
    while i < |table| && HomeOf(table[i]) == home && |page| < max
      invariant first <= i <= |table| && |page| <= max
      invariant rest == Leading(table[i..], home)
      invariant page + rest == goal
    {
      LeadingStep(table, i, home, page);
      page := page + [table[i]];
      i := i + 1;
      rest := Leading(table[i..], home);
    }
    TakePrefix(page, rest, max);
  }
}
