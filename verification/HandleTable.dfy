/**
 The global handle table: the nested loops over pools and their elements that fill one
 page, proved to return the page that TableDownload talks about.
 */
module HandleTable {
  import opened PoolHandleOrder
  import opened TableDownload

  /** A pool and the identifiers of its elements. */
  datatype Pool = Pool(handle: seq<nat>, ids: seq<nat>)

  function KeysOf(p: Pool): (r: seq<Key>)
    ensures |r| == |p.ids| && forall i :: 0 <= i < |r| ==> r[i] == Key(p.handle, p.ids[i])
  {
    seq(|p.ids|, i requires 0 <= i < |p.ids| => Key(p.handle, p.ids[i]))
  }

  function Table(pools: seq<Pool>): seq<Key> {
    if pools == [] then [] else KeysOf(pools[0]) + Table(pools[1..])
  }

  predicate AscendingIds(ids: seq<nat>) {
    forall i, j :: 0 <= i < j < |ids| ==> ids[i] < ids[j]
  }

  /** The index storages: pools ascend by handle and are never empty. */
  predicate ValidPools(pools: seq<Pool>) {
    && (forall i :: 0 <= i < |pools| ==> |pools[i].handle| >= 1 && pools[i].ids != [] && AscendingIds(pools[i].ids))
    && (forall i, j :: 0 <= i < j < |pools| ==> HandleLess(pools[i].handle, pools[j].handle))
  }

  lemma {:induction false} TableMembers(pools: seq<Pool>, k: Key)
    requires k in Table(pools)
    ensures k.Key? && exists i :: 0 <= i < |pools| && pools[i].handle == k.handle && k.id in pools[i].ids
  {
    if k in KeysOf(pools[0]) {
      var i :| 0 <= i < |pools[0].ids| && KeysOf(pools[0])[i] == k;
      assert pools[0].handle == k.handle && k.id in pools[0].ids;
    } else {
      TableMembers(pools[1..], k);
      var i :| 0 <= i < |pools[1..]| && pools[1..][i].handle == k.handle && k.id in pools[1..][i].ids;
      assert pools[i + 1].handle == k.handle && k.id in pools[i + 1].ids;
    }
  }

  lemma {:induction false} AscendingKeys(p: Pool, i: nat)
    requires AscendingIds(p.ids) && i <= |p.ids|
    ensures Ascending(KeysOf(p)[i..])
    decreases |p.ids| - i
  {
    var s := KeysOf(p)[i..];
    if s != [] {
      AscendingKeys(p, i + 1);
      assert s[1..] == KeysOf(p)[i + 1..];
    }
  }

  /** The table that the nested storages represent is ascending. */
  lemma {:induction false} TableAscending(pools: seq<Pool>)
    requires ValidPools(pools)
    ensures Ascending(Table(pools))
  {
    if pools != [] {
      TableAscending(pools[1..]);
      var head := KeysOf(pools[0]);
      AscendingKeys(pools[0], 0);
      assert head[0..] == head;
      forall k | k in Table(pools[1..]) ensures Less(head[|head| - 1], k) {
        TableMembers(pools[1..], k);
        var i :| 0 <= i < |pools[1..]| && pools[1..][i].handle == k.handle && k.id in pools[1..][i].ids;
        assert pools[i + 1].handle == k.handle;
      }
      AscendingConcat(head, Table(pools[1..]));
    }
  }

  // ---- Positions in the nested storages -----------------------------------------------------------

  /** Everything from element `j` of pool `i` on. */
  function From(pools: seq<Pool>, i: nat, j: nat): seq<Key>
    requires i < |pools| ==> j <= |pools[i].ids|
  {
    if i >= |pools| then [] else KeysOf(pools[i])[j..] + Table(pools[i + 1..])
  }

  lemma NextElement(pools: seq<Pool>, i: nat, j: nat)
    requires i < |pools| && j < |pools[i].ids|
    ensures From(pools, i, j) == [Key(pools[i].handle, pools[i].ids[j])] + From(pools, i, j + 1)
  {
    var keys, rest := KeysOf(pools[i]), Table(pools[i + 1..]);
    assert keys[j..] == [keys[j]] + keys[j + 1..];
    assert ([keys[j]] + keys[j + 1..]) + rest == [keys[j]] + (keys[j + 1..] + rest);
  }

  lemma NextPool(pools: seq<Pool>, i: nat)
    requires i < |pools|
    ensures From(pools, i, |pools[i].ids|) == From(pools, i + 1, 0)
  {
    if i + 1 < |pools| {
      assert pools[i + 1..][1..] == pools[i + 2..];
      assert KeysOf(pools[i + 1])[0..] == KeysOf(pools[i + 1]);
    }
  }

  /** A position splits the table at the cursor. */
  predicate IsCut(pools: seq<Pool>, cursor: Key, i: nat, j: nat) {
    && i <= |pools| && cursor.Key?
    && (forall p :: 0 <= p < i ==> HandleLess(pools[p].handle, cursor.handle))
    && (i < |pools| ==>
          && j <= |pools[i].ids|
          && !HandleLess(pools[i].handle, cursor.handle)
          && (pools[i].handle != cursor.handle ==> j == 0)
          && (pools[i].handle == cursor.handle ==>
                && (forall q :: 0 <= q < j ==> pools[i].ids[q] <= cursor.id)
                && (j < |pools[i].ids| ==> cursor.id < pools[i].ids[j])))
  }

  lemma {:induction false} SkipSmall(s: seq<Key>, t: seq<Key>, cursor: Key)
    requires forall k :: k in s ==> !Less(cursor, k)
    ensures After(s + t, cursor) == After(t, cursor)
  {
    if s == [] {
      assert s + t == t;
    } else {
      assert s[0] in s && (s + t)[0] == s[0] && (s + t)[1..] == s[1..] + t;
      SkipSmall(s[1..], t, cursor);
    }
  }

  /** What follows the cut is what follows the cursor. */
  lemma {:induction false} CutIsAfter(pools: seq<Pool>, cursor: Key, i: nat, j: nat)
    requires ValidPools(pools) && IsCut(pools, cursor, i, j)
    ensures After(Table(pools), cursor) == From(pools, i, j)
    decreases i
  {
    if pools == [] {
    } else if i > 0 {
      HandleOrder(pools[0].handle, cursor.handle, cursor.handle);
      SkipSmall(KeysOf(pools[0]), Table(pools[1..]), cursor);
      CutIsAfter(pools[1..], cursor, i - 1, j);
      if i < |pools| { assert pools[1..][i..] == pools[i + 1..]; }
    } else {
      var head, rest := KeysOf(pools[0]), Table(pools[1..]);
      HandleOrder(pools[0].handle, cursor.handle, cursor.handle);
      HandleOrder(cursor.handle, pools[0].handle, cursor.handle);
      assert head + rest == head[..j] + (head[j..] + rest);
      SkipSmall(head[..j], head[j..] + rest, cursor);
      if j == |head| {
        assert head[j..] + rest == rest;
        RestBehind(pools, cursor);
      }
    }
  }

  lemma RestBehind(pools: seq<Pool>, cursor: Key)
    requires ValidPools(pools) && pools != [] && cursor.Key? && pools[0].handle == cursor.handle
    ensures After(Table(pools[1..]), cursor) == Table(pools[1..])
  {
    forall k | k in Table(pools[1..]) ensures Less(cursor, k) {
      TableMembers(pools[1..], k);
      var i :| 0 <= i < |pools[1..]| && pools[1..][i].handle == k.handle && k.id in pools[1..][i].ids;
      assert pools[i + 1].handle == k.handle;
    }
    AfterAll(Table(pools[1..]), cursor);
  }

  // ---- The request -------------------------------------------------------------------------------

  /** The cursor before the first element; no pool has an empty handle. */
  const START := Key([], 0)

  /** Finds the pool of the cursor or the nearest next one, then the nearest next element. */
  method Locate(pools: seq<Pool>, cursor: Key) returns (i: nat, j: nat)
    requires ValidPools(pools) && cursor.Key?
    ensures IsCut(pools, cursor, i, j)
  {
    i, j := 0, 0;
    while i < |pools| && PoolHandleComparison(pools[i].handle, cursor.handle) < 0
      invariant i <= |pools|
      invariant forall p :: 0 <= p < i ==> HandleLess(pools[p].handle, cursor.handle)
    {
      i := i + 1;
    }
    if i < |pools| {
      HandleOrder(pools[i].handle, cursor.handle, cursor.handle);
      if PoolHandleComparison(pools[i].handle, cursor.handle) == 0 {
        while j < |pools[i].ids| && pools[i].ids[j] <= cursor.id
          invariant j <= |pools[i].ids|
          invariant forall q :: 0 <= q < j ==> pools[i].ids[q] <= cursor.id
        {
          j := j + 1;
        }
      }
    }
  }

  lemma Shift<T>(a: seq<T>, x: T, b: seq<T>)
    ensures a + ([x] + b) == a + [x] + b
  {
  }

  /** Continues a page with the elements of one pool. */
  method FillFromPool(pools: seq<Pool>, i: nat, element: nat, before: seq<Key>, max: nat)
      returns (page: seq<Key>, j: nat)
    requires i < |pools| && element <= |pools[i].ids| && |before| < max
    ensures j <= |pools[i].ids| && |page| <= max && (|page| < max ==> j == |pools[i].ids|)
    ensures page + From(pools, i, j) == before + From(pools, i, element)
  {
    page, j := before, element;
    hide From;
    while j < |pools[i].ids| && |page| < max
      invariant j <= |pools[i].ids| && |page| <= max
      invariant page + From(pools, i, j) == before + From(pools, i, element)
    {
      NextElement(pools, i, j);
      var key := Key(pools[i].handle, pools[i].ids[j]);
      Shift(page, key, From(pools, i, j + 1));
      page := page + [key];
      j := j + 1;
    }
  }

  lemma PastTheEnd(pools: seq<Pool>, i: nat, j: nat)
    requires i >= |pools|
    ensures From(pools, i, j) == []
  {
  }

  /** Fills a page from the given position on, pool by pool. */
  method FillPage(pools: seq<Pool>, first: nat, element: nat, max: nat) returns (page: seq<Key>)
    requires first < |pools| ==> element <= |pools[first].ids|
    ensures page == Take(From(pools, first, element), max)
  {
    page := [];
    var i: nat, j: nat := first, element;
    ghost var goal := From(pools, first, element);
    ghost var rest := goal;
    hide From, Take, KeysOf, Table;
    assert page + rest == goal;
    while i < |pools| && |page| < max
      invariant i < |pools| ==> j <= |pools[i].ids|
      invariant rest == From(pools, i, j)
      invariant |page| <= max
      invariant page + rest == goal
      decreases |pools| - i, max - |page|
    {
      page, j := FillFromPool(pools, i, j, page, max);
      rest := From(pools, i, j);
      if |page| < max {
        NextPool(pools, i);
        i, j := i + 1, 0;
      }
    }
    if i >= |pools| { PastTheEnd(pools, i, j); }
    TakePrefix(page, rest, max);
  }

  /** getGlobalHandleTable(): `result` is false if nothing was found.  A request that asks
      for no elements returns false at once. */
  method GetGlobalHandleTable(pools: seq<Pool>, last: Key, start: bool, maxElements: nat)
      returns (page: seq<Key>, cursor: Key, result: bool)
    requires ValidPools(pools) && last.Key?
    ensures page == Page(Table(pools), if start then START else last, maxElements)
    ensures result <==> page != []
    ensures cursor == if page != [] then page[|page| - 1] else if start && maxElements >= 1 then START else last
  {
    page, cursor, result := [], last, false;
    if maxElements < 1 { return; }
    if start { cursor := START; }
    var i, j := Locate(pools, cursor);
    CutIsAfter(pools, cursor, i, j);
    page := FillPage(pools, i, j, if maxElements > MAX_PAGE then MAX_PAGE else maxElements);
    if page != [] {
      cursor := page[|page| - 1];
      result := true;
    }
  }
}
