/**
 When the download of an ownership table ends.  A page that is not full ends it; a full
 page of another registrar's elements leads back into the own ones.
 */
module OwnershipEnd {
  import opened PoolHandleOrder
  import opened TableDownload
  import opened OwnershipTable
  import opened OwnershipDownload

  /** Within so many requests the pages behind `last` come to one that is not full. */
  predicate ContinueEnds(table: seq<Key>, home: nat, last: Key, max: nat, requests: nat)
    decreases requests
  {
    requests > 0 &&
    var page := NextPage(table, home, last, max);
    || page == [] || |page| < Clamp(max)
    || ContinueEnds(table, home, page[|page| - 1], max, requests - 1)
  }

  predicate DownloadEnds(table: seq<Key>, home: nat, max: nat, requests: nat) {
    requests > 0 &&
    var page := StartPage(table, home, max);
    || page == [] || |page| < Clamp(max)
    || ContinueEnds(table, home, page[|page| - 1], max, requests - 1)
  }

  /** The elements of the next larger registrar. */
  function Foreign(table: seq<Key>, home: nat): seq<Key> { Run(Larger(table, home)) }

  /** The owned elements behind a cursor, as it is used for the own registrar. */
  function Left(table: seq<Key>, home: nat, last: Key): seq<Key> {
    Owned(After(table, Entry(home, last.id, last.handle)), home)
  }

  /** Both the own pages and those behind a full foreign page come out even. */
  predicate Circles(table: seq<Key>, home: nat, max: nat)
    requires max >= 1
  {
    var m, foreign := Clamp(max), Foreign(table, home);
    && PagesComeOut(table, home, max)
    && |foreign| >= m
    && Remainder(|Left(table, home, foreign[m - 1])|, m) == 0
  }

  // ---- The page behind a cursor ---------------------------------------------------------------------------

  lemma {:induction false} AfterSuffix(s: seq<Key>, cursor: Key)
    ensures |After(s, cursor)| <= |s| && After(s, cursor) == s[|s| - |After(s, cursor)|..]
  {
    if s != [] && !Less(cursor, s[0]) { AfterSuffix(s[1..], cursor); }
  }

  lemma LeftSuffix(table: seq<Key>, home: nat, last: Key)
    requires Ascending(table)
    ensures var own, left := Owned(table, home), Left(table, home, last);
      |left| <= |own| && left == own[|own| - |left|..]
  {
    OwnedAfter(table, home, Entry(home, last.id, last.handle));
    AfterSuffix(Owned(table, home), Entry(home, last.id, last.handle));
  }

  lemma PageOfLeft(table: seq<Key>, home: nat, last: Key, max: nat)
    requires Ascending(table) && max >= 1
    ensures NextPage(table, home, last, max) ==
              Take(if Left(table, home, last) != [] then Left(table, home, last) else Foreign(table, home), Clamp(max))
  {
    var x := Entry(home, last.id, last.handle);
    var s := After(table, x);
    BehindEffect(table, x);
    OwnedFirst(s, home);
    if Owned(s, home) != [] {
      assert s[0] == Owned(s, home)[0];
      OwnedMembers(s, home, s[0]);
    } else {
      assert s == Larger(table, home);
    }
  }

  /** Behind an owned element. */
  lemma LeftOfOwned(table: seq<Key>, home: nat, q: nat)
    requires ValidEntries(table) && 1 <= q <= |Owned(table, home)|
    ensures Left(table, home, Owned(table, home)[q - 1]) == Owned(table, home)[q..]
  {
    var last := Owned(table, home)[q - 1];
    OwnedMembers(table, home, last);
    assert last == Entry(home, last.id, last.handle);
    BehindOwned(table, home, q);
  }

  // ---- One request -------------------------------------------------------------------------------------------

  /** Fewer owned elements than a page are left, but some. */
  lemma LastOwnPage(table: seq<Key>, home: nat, last: Key, max: nat, requests: nat)
    requires Ascending(table) && max >= 1 && 0 < |Left(table, home, last)| < Clamp(max) && requests > 0
    ensures ContinueEnds(table, home, last, max, requests)
  {
    PageOfLeft(table, home, last, max);
  }

  /** A full page of owned elements. */
  lemma FullOwnPage(table: seq<Key>, home: nat, last: Key, max: nat, requests: nat) returns (next: Key)
    requires ValidEntries(table) && max >= 1 && |Left(table, home, last)| >= Clamp(max) && requests > 0
    ensures ContinueEnds(table, home, last, max, requests) <==> ContinueEnds(table, home, next, max, requests - 1)
    ensures |Left(table, home, next)| == |Left(table, home, last)| - Clamp(max)
  {
    var own, left, m := Owned(table, home), Left(table, home, last), Clamp(max);
    PageOfLeft(table, home, last, max);
    LeftSuffix(table, home, last);
    var q := |own| - |left| + m;
    next := own[q - 1];
    assert left[m - 1] == next;
    LeftOfOwned(table, home, q);
    FullNext(table, home, last, max, requests, left);
  }

  lemma FullNext(table: seq<Key>, home: nat, last: Key, max: nat, requests: nat, s: seq<Key>)
    requires max >= 1 && |s| >= Clamp(max) && NextPage(table, home, last, max) == Take(s, Clamp(max)) && requests > 0
    ensures ContinueEnds(table, home, last, max, requests) <==> ContinueEnds(table, home, s[Clamp(max) - 1], max, requests - 1)
  {
    var page := NextPage(table, home, last, max);
    assert |page| == Clamp(max) && page[|page| - 1] == s[Clamp(max) - 1];
  }

  /** No owned element is left: a full foreign page always leads to the same cursor. */
  lemma NoneLeft(table: seq<Key>, home: nat, last: Key, max: nat, requests: nat)
    requires Ascending(table) && max >= 1 && Left(table, home, last) == [] && requests > 0
    ensures var m, foreign := Clamp(max), Foreign(table, home);
      ContinueEnds(table, home, last, max, requests) <==>
        |foreign| < m || ContinueEnds(table, home, foreign[m - 1], max, requests - 1)
  {
    PageOfLeft(table, home, last, max);
    if |Foreign(table, home)| >= Clamp(max) { FullNext(table, home, last, max, requests, Foreign(table, home)); }
  }

  // ---- All further requests ------------------------------------------------------------------------------------

  /** If the rest does not come out even, the download ends with it. */
  lemma {:induction false} UnevenEnds(table: seq<Key>, home: nat, last: Key, max: nat, requests: nat)
    requires ValidEntries(table) && max >= 1 && requests > |Left(table, home, last)|
    requires Remainder(|Left(table, home, last)|, Clamp(max)) != 0
    ensures ContinueEnds(table, home, last, max, requests)
    decreases requests
  {
    hide ContinueEnds, Left, ValidEntries, Ascending;
    assert Ascending(table) by { ValidAscends(table); }
    if |Left(table, home, last)| < Clamp(max) {
      LastOwnPage(table, home, last, max, requests);
    } else {
      var next := FullOwnPage(table, home, last, max, requests);
      UnevenEnds(table, home, next, max, requests - 1);
    }
  }

  lemma ValidAscends(table: seq<Key>)
    requires ValidEntries(table)
    ensures Ascending(table)
  {
  }

  /** If both rests come out even, it never ends. */
  lemma {:induction false} EvenCircles(table: seq<Key>, home: nat, last: Key, max: nat, requests: nat)
    requires ValidEntries(table) && max >= 1 && |Foreign(table, home)| >= Clamp(max)
    requires Remainder(|Left(table, home, Foreign(table, home)[Clamp(max) - 1])|, Clamp(max)) == 0
    requires Remainder(|Left(table, home, last)|, Clamp(max)) == 0
    ensures !ContinueEnds(table, home, last, max, requests)
    decreases requests
  {
    if requests > 0 {
      hide ContinueEnds, Left, ValidEntries, Ascending, Foreign;
      ValidAscends(table);
      if Left(table, home, last) == [] {
        NoneLeft(table, home, last, max, requests);
        EvenCircles(table, home, Foreign(table, home)[Clamp(max) - 1], max, requests - 1);
      } else {
        var next := FullOwnPage(table, home, last, max, requests);
        EvenCircles(table, home, next, max, requests - 1);
      }
    }
  }

  /** If only the first rest comes out even, it ends after the foreign page. */
  lemma {:induction false} EvenEnds(table: seq<Key>, home: nat, last: Key, max: nat, requests: nat)
    requires ValidEntries(table) && max >= 1 && requests > |Left(table, home, last)| + |Owned(table, home)| + 1
    requires Remainder(|Left(table, home, last)|, Clamp(max)) == 0
    requires |Foreign(table, home)| < Clamp(max) ||
             Remainder(|Left(table, home, Foreign(table, home)[Clamp(max) - 1])|, Clamp(max)) != 0
    ensures ContinueEnds(table, home, last, max, requests)
    decreases requests
  {
    hide ContinueEnds, Left, ValidEntries, Ascending, Foreign, Owned;
    ValidAscends(table);
    if Left(table, home, last) == [] {
      NoneLeft(table, home, last, max, requests);
      if |Foreign(table, home)| >= Clamp(max) {
        var f := Foreign(table, home)[Clamp(max) - 1];
        LeftSuffix(table, home, f);
        UnevenEnds(table, home, f, max, requests - 1);
      }
    } else {
      var next := FullOwnPage(table, home, last, max, requests);
      EvenEnds(table, home, next, max, requests - 1);
    }
  }

  lemma EndsFrom(table: seq<Key>, home: nat, last: Key, max: nat, requests: nat)
    requires ValidEntries(table) && max >= 1 && requests > 2 * |Owned(table, home)| + 1
    ensures ContinueEnds(table, home, last, max, requests) <==>
              var m, foreign := Clamp(max), Foreign(table, home);
              !(&& Remainder(|Left(table, home, last)|, m) == 0 && |foreign| >= m
                && Remainder(|Left(table, home, foreign[m - 1])|, m) == 0)
  {
    ValidAscends(table);
    LeftSuffix(table, home, last);
    hide ContinueEnds, Left, ValidEntries, Ascending, Foreign, Owned;
    if Remainder(|Left(table, home, last)|, Clamp(max)) != 0 {
      UnevenEnds(table, home, last, max, requests);
    } else if |Foreign(table, home)| >= Clamp(max) && Remainder(|Left(table, home, Foreign(table, home)[Clamp(max) - 1])|, Clamp(max)) == 0 {
      EvenCircles(table, home, last, max, requests);
    } else {
      EvenEnds(table, home, last, max, requests);
    }
  }

  // ---- Main results ------------------------------------------------------------------------------------------------

  lemma StartFull(table: seq<Key>, home: nat, max: nat, requests: nat)
    requires max >= 1 && requests > 0 && !StartMissed(table, home) && |Owned(table, home)| >= Clamp(max)
    ensures DownloadEnds(table, home, max, requests) <==>
              ContinueEnds(table, home, Owned(table, home)[Clamp(max) - 1], max, requests - 1)
  {
    var page := StartPage(table, home, max);
    assert |page| == Clamp(max) && page[|page| - 1] == Owned(table, home)[Clamp(max) - 1];
  }

  lemma StartNotFull(table: seq<Key>, home: nat, max: nat, requests: nat)
    requires max >= 1 && requests > 0 && (StartMissed(table, home) || |Owned(table, home)| < Clamp(max))
    ensures DownloadEnds(table, home, max, requests)
  {
  }

  lemma ForeignFull(table: seq<Key>, home: nat)
    requires Foreign(table, home) != []
    ensures Larger(table, home) != []
  {
  }

  lemma EndsIffLong(table: seq<Key>, home: nat, max: nat, requests: nat)
    requires ValidEntries(table) && max >= 1 && requests > 2 * |Owned(table, home)| + 2
    requires !StartMissed(table, home) && |Owned(table, home)| >= Clamp(max)
    ensures DownloadEnds(table, home, max, requests) <==> !Circles(table, home, max)
  {
    hide DownloadEnds, ContinueEnds, Left, Foreign, StartMissed, Owned, Larger, ValidEntries, Remainder;
    var own, m := Owned(table, home), Clamp(max);
    RemainderStep(|own|, 0, m);
    StartFull(table, home, max, requests);
    LeftOfOwned(table, home, m);
    EndsFrom(table, home, own[m - 1], max, requests - 1);
    if Foreign(table, home) != [] { ForeignFull(table, home); }
    assert |own[m..]| == |own| - m;
  }

  lemma ShortNeverCircles(table: seq<Key>, home: nat, max: nat)
    requires max >= 1 && |Owned(table, home)| < Clamp(max)
    ensures !Circles(table, home, max)
  {
    RemainderStep(|Owned(table, home)|, 0, Clamp(max));
  }

  /** The download of a fixed ownership table ends if and only if the search misses its
      start or it does not go in circles; and within twice as many requests as there are
      owned elements and three more. */
  lemma DownloadEndsIff(table: seq<Key>, home: nat, max: nat, requests: nat)
    requires ValidEntries(table) && max >= 1 && requests > 2 * |Owned(table, home)| + 2
    ensures DownloadEnds(table, home, max, requests) <==> StartMissed(table, home) || !Circles(table, home, max)
  {
    hide DownloadEnds, Circles, StartMissed, Owned, ValidEntries;
    if StartMissed(table, home) {
      StartNotFull(table, home, max, requests);
    } else if |Owned(table, home)| < Clamp(max) {
      StartNotFull(table, home, max, requests);
      ShortNeverCircles(table, home, max);
    } else {
      EndsIffLong(table, home, max, requests);
    }
  }

  /** A download that goes in circles does so for ever. */
  lemma CirclesForEver(table: seq<Key>, home: nat, max: nat, requests: nat)
    requires ValidEntries(table) && max >= 1 && !StartMissed(table, home) && Circles(table, home, max)
    ensures !DownloadEnds(table, home, max, requests)
  {
    if requests > 0 {
      hide ContinueEnds, Left, Foreign, StartMissed, Owned, Larger, ValidEntries, Remainder;
      var own, m := Owned(table, home), Clamp(max);
      RemainderStep(|own|, 0, m);
      assert |own| >= m;
      StartFull(table, home, max, requests);
      LeftOfOwned(table, home, m);
      assert |own[m..]| == |own| - m;
      EvenCircles(table, home, own[m - 1], max, requests - 1);
    }
  }

  /** If every page is right, the download of a fixed table ends: one request per owned
      element and one more suffice. */
  lemma RightDownloadEnds(rs: seq<Request>, table: seq<Key>, home: nat)
    requires ValidRequests(rs) && AllRight(rs, home, Begin(home)) && |rs| > |Owned(table, home)|
    requires forall r :: r in rs ==> r.table == table
    ensures OwnFinished(rs, home, Begin(home))
  {
    var ms := MineAll(rs, home);
    DownloadIsMine(rs, home, Begin(home));
    forall m | m in ms ensures m.table == Owned(table, home) && m.max >= 1 {
      var i :| 0 <= i < |ms| && ms[i] == m;
      assert rs[i] in rs;
    }
    assert rs[0] in rs;
    OwnedAscending(table, home);
    AfterSuffix(Owned(table, home), Begin(home));
    FixedTableEnds(ms, Owned(table, home), Begin(home));
  }
}
