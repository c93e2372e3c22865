/**
 Downloading the elements that one registrar owns while they change, and while responses
 may carry only part of a page: as long as every page is right, the download is one of the
 kind that TableDownload talks about, over the owned elements alone.
 */
module OwnershipDownload {
  import opened PoolHandleOrder
  import opened TableDownload
  import opened OwnershipTable

  /** The cursor of a download that has not begun; no element has an empty handle. */
  function Begin(home: nat): Key { Entry(home, 0, []) }

  predicate IsCursor(cursor: Key, home: nat) {
    cursor.Entry? && cursor.home == home && (cursor == Begin(home) || cursor.handle != [])
  }

  function OwnPage(r: Request, home: nat, cursor: Key): seq<Key> {
    if cursor == Begin(home) then StartPage(r.table, home, r.max) else NextPage(r.table, home, cursor, r.max)
  }

  function OwnDelivered(r: Request, home: nat, cursor: Key): seq<Key> {
    Take(OwnPage(r, home, cursor), if r.fit == 0 then 1 else r.fit)
  }

  predicate OwnMore(r: Request, home: nat, cursor: Key) {
    var page := OwnPage(r, home, cursor);
    page != [] && (|page| == Clamp(r.max) || |OwnDelivered(r, home, cursor)| != |page|)
  }

  /** The next search starts with the own identifier, whoever owns the last element. */
  function OwnAdvance(r: Request, home: nat, cursor: Key): Key {
    var d := OwnDelivered(r, home, cursor);
    if d == [] then cursor else Entry(home, d[|d| - 1].id, d[|d| - 1].handle)
  }

  function OwnDownload(rs: seq<Request>, home: nat, cursor: Key): seq<Key>
    decreases |rs|
  {
    if rs == [] then []
    else OwnDelivered(rs[0], home, cursor) +
         if OwnMore(rs[0], home, cursor) then OwnDownload(rs[1..], home, OwnAdvance(rs[0], home, cursor)) else []
  }

  predicate OwnFinished(rs: seq<Request>, home: nat, cursor: Key)
    decreases |rs|
  {
    rs != [] && (!OwnMore(rs[0], home, cursor) || OwnFinished(rs[1..], home, OwnAdvance(rs[0], home, cursor)))
  }

  /** The condition of ContinuationIff and FindFirst: an owned element is left, or no
      registrar with a larger identifier has any; and the start is not missed. */
  predicate IsRight(r: Request, home: nat, cursor: Key) {
    if cursor == Begin(home) then !StartMissed(r.table, home)
    else Owned(After(r.table, cursor), home) != [] || Larger(r.table, home) == []
  }

  predicate AllRight(rs: seq<Request>, home: nat, cursor: Key)
    decreases |rs|
  {
    rs == [] || (&& IsRight(rs[0], home, cursor)
                 && (OwnMore(rs[0], home, cursor) ==> AllRight(rs[1..], home, OwnAdvance(rs[0], home, cursor))))
  }

  predicate ValidRequests(rs: seq<Request>) {
    forall r :: r in rs ==> ValidEntries(r.table) && r.max >= 1
  }

  // ---- Over the owned elements alone -----------------------------------------------------------------

  function Mine(r: Request, home: nat): Request { r.(table := Owned(r.table, home)) }

  function MineAll(rs: seq<Request>, home: nat): (ms: seq<Request>)
    ensures |ms| == |rs| && forall i :: 0 <= i < |rs| ==> ms[i] == Mine(rs[i], home)
  {
    if rs == [] then [] else [Mine(rs[0], home)] + MineAll(rs[1..], home)
  }

  lemma {:induction false} OwnedAfter(table: seq<Key>, home: nat, cursor: Key)
    requires Ascending(table)
    ensures Owned(After(table, cursor), home) == After(Owned(table, home), cursor)
  {
    if table != [] {
      if Less(cursor, table[0]) {
        forall e | e in Owned(table, home) ensures Less(cursor, e) {
          OwnedMembers(table, home, e);
          KeyOrder(cursor, table[0], e);
          assert e == table[0] || e in table[1..];
        }
        AfterAll(Owned(table, home), cursor);
      } else {
        OwnedAfter(table[1..], home, cursor);
        OwnedStep(table, home);
      }
    }
  }

  lemma {:induction false} OwnedAscending(table: seq<Key>, home: nat)
    requires Ascending(table)
    ensures Ascending(Owned(table, home))
  {
    if table != [] {
      OwnedAscending(table[1..], home);
      OwnedStep(table, home);
      if HomeOf(table[0]) == home {
        var own := Owned(table, home);
        forall e | e in own[1..] ensures Less(own[0], e) { OwnedMembers(table[1..], home, e); }
      }
    }
  }

  /** A page that is right is the page of the owned elements. */
  lemma PageIsMine(r: Request, home: nat, cursor: Key)
    requires ValidEntries(r.table) && r.max >= 1 && IsCursor(cursor, home) && IsRight(r, home, cursor)
    ensures OwnPage(r, home, cursor) == Page(Owned(r.table, home), cursor, r.max)
  {
    if cursor == Begin(home) {
      forall e | e in Owned(r.table, home) ensures Less(cursor, e) { OwnedMembers(r.table, home, e); }
      AfterAll(Owned(r.table, home), cursor);
    } else {
      ContinuationIff(r.table, home, cursor, r.max);
      OwnedAfter(r.table, home, cursor);
    }
  }

  lemma DeliveredIsMine(r: Request, home: nat, cursor: Key)
    requires ValidEntries(r.table) && r.max >= 1 && IsCursor(cursor, home) && IsRight(r, home, cursor)
    ensures var m := Mine(r, home);
      && OwnDelivered(r, home, cursor) == Delivered(m, cursor)
      && (OwnMore(r, home, cursor) <==> More(m, cursor))
      && OwnAdvance(r, home, cursor) == Advance(m, cursor)
      && IsCursor(OwnAdvance(r, home, cursor), home)
  {
    PageIsMine(r, home, cursor);
    var d := OwnDelivered(r, home, cursor);
    if d != [] {
      var last := d[|d| - 1];
      OwnedAscending(r.table, home);
      DeliveredEffect(Mine(r, home), cursor, last);
      OwnedMembers(r.table, home, last);
    }
  }

  lemma {:induction false} DownloadIsMine(rs: seq<Request>, home: nat, cursor: Key)
    requires ValidRequests(rs) && IsCursor(cursor, home) && AllRight(rs, home, cursor)
    ensures OwnDownload(rs, home, cursor) == Download(MineAll(rs, home), cursor)
    ensures OwnFinished(rs, home, cursor) <==> Finished(MineAll(rs, home), cursor)
    decreases |rs|
  {
    if rs != [] {
      assert rs[0] in rs;
      DeliveredIsMine(rs[0], home, cursor);
      assert MineAll(rs, home)[1..] == MineAll(rs[1..], home);
      if OwnMore(rs[0], home, cursor) {
        DownloadIsMine(rs[1..], home, OwnAdvance(rs[0], home, cursor));
      }
    }
  }

  // ---- Main results ---------------------------------------------------------------------------------------

  /** Whatever happens to the table between the requests: if every page is right, no element
      is delivered twice, every element that the registrar owns throughout is delivered by
      the end, and only elements that it owned are delivered. */
  lemma OwnedDownload(rs: seq<Request>, home: nat, k: Key)
    requires ValidRequests(rs) && AllRight(rs, home, Begin(home)) && OwnFinished(rs, home, Begin(home))
    ensures var all := OwnDownload(rs, home, Begin(home));
      && Ascending(all)
      && ((forall r :: r in rs ==> k in Owned(r.table, home)) ==> k in all)
      && (k in all ==> exists r :: r in rs && k in Owned(r.table, home))
  {
    var ms, all := MineAll(rs, home), OwnDownload(rs, home, Begin(home));
    DownloadIsMine(rs, home, Begin(home));
    forall m | m in ms ensures Ascending(m.table) && m.max >= 1 {
      var i :| 0 <= i < |ms| && ms[i] == m;
      assert rs[i] in rs;
      OwnedAscending(rs[i].table, home);
    }
    NothingTwice(ms, Begin(home));
    if k in all { DownloadBehind(ms, Begin(home), k); }
    if forall r :: r in rs ==> k in Owned(r.table, home) {
      assert rs[0] in rs;
      OwnedMembers(rs[0].table, home, k);
      assert Less(Begin(home), k);
    }
    if Less(Begin(home), k) {
      NothingMissed(ms, Begin(home), k);
      OnlyMine(rs, home, k);
    }
  }

  /** With a fixed table the responses concatenate to the elements that are owned. */
  lemma FixedOwnedComplete(rs: seq<Request>, table: seq<Key>, home: nat)
    requires ValidRequests(rs) && AllRight(rs, home, Begin(home)) && OwnFinished(rs, home, Begin(home))
    requires forall r :: r in rs ==> r.table == table
    ensures OwnDownload(rs, home, Begin(home)) == Owned(table, home)
  {
    var ms := MineAll(rs, home);
    DownloadIsMine(rs, home, Begin(home));
    forall m | m in ms ensures m.table == Owned(table, home) && m.max >= 1 {
      var i :| 0 <= i < |ms| && ms[i] == m;
      assert rs[i] in rs;
    }
    assert rs[0] in rs;
    OwnedAscending(table, home);
    FixedTableComplete(ms, Owned(table, home), Begin(home));
    forall e | e in Owned(table, home) ensures Less(Begin(home), e) { OwnedMembers(table, home, e); }
    AfterAll(Owned(table, home), Begin(home));
  }

  lemma OnlyMine(rs: seq<Request>, home: nat, k: Key)
    ensures (forall r :: r in rs ==> k in Owned(r.table, home)) <==> (forall m :: m in MineAll(rs, home) ==> k in m.table)
    ensures (exists r :: r in rs && k in Owned(r.table, home)) <==> (exists m :: m in MineAll(rs, home) && k in m.table)
  {
    var ms := MineAll(rs, home);
    forall m | m in ms ensures exists r :: r in rs && m == Mine(r, home) {
      var i :| 0 <= i < |ms| && ms[i] == m;
      assert rs[i] in rs;
    }
    forall r | r in rs ensures Mine(r, home) in ms {
      var i :| 0 <= i < |rs| && rs[i] == r;
      assert ms[i] == Mine(r, home);
    }
  }

  lemma FirstOfPage(s: seq<Key>, max: nat, fit: nat)
    requires s != [] && max >= 1 && fit >= 1
    ensures var d := Take(Take(Run(s), Clamp(max)), fit); d != [] && d[0] == s[0]
  {
  }

  /** A page that is not right begins with another registrar's element. */
  lemma WrongPage(r: Request, home: nat, cursor: Key)
    requires ValidEntries(r.table) && r.max >= 1 && IsCursor(cursor, home) && cursor != Begin(home) && !IsRight(r, home, cursor)
    ensures HasForeign(OwnDelivered(r, home, cursor), home)
  {
    var s := After(r.table, cursor);
    BehindEffect(r.table, cursor);
    OwnedFirst(s, home);
    assert s == Larger(r.table, home);
    OwnedMembers(r.table, home, s[0]);
    hide Owned, Larger, After, Ascending, Run, Take;
    FirstOfPage(s, r.max, if r.fit == 0 then 1 else r.fit);
    assert OwnDelivered(r, home, cursor)[0] in OwnDelivered(r, home, cursor);
  }

  lemma RightPage(r: Request, home: nat, cursor: Key)
    requires ValidEntries(r.table) && r.max >= 1 && IsCursor(cursor, home) && IsRight(r, home, cursor)
    ensures !HasForeign(OwnDelivered(r, home, cursor), home)
  {
    DeliveredIsMine(r, home, cursor);
    OwnedAscending(r.table, home);
    forall e | e in OwnDelivered(r, home, cursor) ensures HomeOf(e) == home {
      DeliveredEffect(Mine(r, home), cursor, e);
      OwnedMembers(r.table, home, e);
    }
  }

  lemma {:induction false} OnlyOwnedFrom(rs: seq<Request>, home: nat, cursor: Key)
    requires ValidRequests(rs) && IsCursor(cursor, home)
    requires cursor == Begin(home) && rs != [] ==> !StartMissed(rs[0].table, home)
    ensures !HasForeign(OwnDownload(rs, home, cursor), home) <==> AllRight(rs, home, cursor)
    decreases |rs|
  {
    if rs != [] {
      var r, d := rs[0], OwnDelivered(rs[0], home, cursor);
      assert r in rs;
      if IsRight(r, home, cursor) {
        RightPage(r, home, cursor);
        DeliveredIsMine(r, home, cursor);
        if OwnMore(r, home, cursor) {
          OnlyOwnedNext(rs, home, cursor);
        } else {
          assert d + [] == d;
        }
      } else {
        WrongPage(r, home, cursor);
        ForeignConcat(d, if OwnMore(r, home, cursor) then OwnDownload(rs[1..], home, OwnAdvance(r, home, cursor)) else [], home);
      }
    }
  }

  lemma {:induction false} OnlyOwnedNext(rs: seq<Request>, home: nat, cursor: Key)
    requires ValidRequests(rs) && IsCursor(cursor, home) && rs != [] && IsRight(rs[0], home, cursor)
    requires OwnMore(rs[0], home, cursor) && !HasForeign(OwnDelivered(rs[0], home, cursor), home)
    ensures !HasForeign(OwnDownload(rs, home, cursor), home) <==> AllRight(rs, home, cursor)
    decreases |rs|, 0
  {
    var r, d := rs[0], OwnDelivered(rs[0], home, cursor);
    var next := OwnAdvance(r, home, cursor);
    assert r in rs;
    DeliveredIsMine(r, home, cursor);
    NotBegin(r, home, cursor);
    OnlyOwnedFrom(rs[1..], home, next);
    var rest := OwnDownload(rs[1..], home, next);
    ForeignConcat(d, rest, home);
    if HasForeign(d + rest, home) {
      var e :| e in d + rest && HomeOf(e) != home;
      assert e in d || e in rest;
    }
  }

  lemma NotBegin(r: Request, home: nat, cursor: Key)
    requires ValidEntries(r.table) && r.max >= 1 && IsCursor(cursor, home) && IsRight(r, home, cursor) && OwnMore(r, home, cursor)
    ensures OwnAdvance(r, home, cursor) != Begin(home)
  {
    var d := OwnDelivered(r, home, cursor);
    DeliveredIsMine(r, home, cursor);
    OwnedAscending(r.table, home);
    DeliveredEffect(Mine(r, home), cursor, d[|d| - 1]);
    OwnedMembers(r.table, home, d[|d| - 1]);
  }

  /** A download delivers elements of its registrar only if and only if at every request
      behind the first an owned element is left, or no registrar with a larger identifier
      has any; for changing tables and partial responses. */
  lemma {:induction false} OnlyOwnedIff(rs: seq<Request>, home: nat)
    requires ValidRequests(rs) && (rs != [] ==> !StartMissed(rs[0].table, home))
    ensures (forall e :: e in OwnDownload(rs, home, Begin(home)) ==> HomeOf(e) == home) <==> AllRight(rs, home, Begin(home))
  {
    OnlyOwnedFrom(rs, home, Begin(home));
  }
}
