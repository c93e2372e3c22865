/**
 The download of a peer's ownership table and the synchronisation with it taken together:
 what the peer owns is downloaded page by page, registered and completed by the purge.
 */
module TableSynchronisation {
  import opened HandlespaceChecksum
  import opened H = HandlespaceModel
  import opened PoolHandleOrder
  import opened TableDownload
  import OwnershipTable
  import OwnershipDownload
  import OwnershipEnd
  import opened PeerList
  import opened R = RegistrarModel
  import opened Resynchronisation

  // ---- The ownership storage of a handlespace ------------------------------------------------------------

  /** The identifier whose four bytes these are, in network byte order. */
  function IdOf(bytes: seq<Byte>): nat
    requires |bytes| == 4
  {
    var b0: nat, b1: nat, b2: nat, b3: nat := bytes[0], bytes[1], bytes[2], bytes[3];
    0x100_0000 * b0 + 0x1_0000 * b1 + 0x100 * b2 + b3
  }

  lemma IdInjective(a: seq<Byte>, b: seq<Byte>)
    requires |a| == |b| == 4 && IdOf(a) == IdOf(b)
    ensures a == b
  {
    assert a[0] == b[0];
    assert a[1] == b[1];
    assert a[2] == b[2];
  }

  /** An element as the ownership storage names it. */
  function EntryOf(k: Element, home: nat): Key {
    PoolHandleOrder.Entry(home, if |k.identifier| == 4 then IdOf(k.identifier) else 0, k.handle)
  }

  lemma EntryInjective(a: Element, b: Element, home: nat)
    requires ValidElement(a) && ValidElement(b) && EntryOf(a, home) == EntryOf(b, home)
    ensures a == b
  {
    IdInjective(a.identifier, b.identifier);
  }

  /** The table lists exactly the elements of the handlespace. */
  ghost predicate Stores(table: seq<Key>, s: Entries) {
    && OwnershipTable.ValidEntries(table) && AllValid(s)
    && (forall k :: k in s ==> EntryOf(k, s[k].home) in table)
    && (forall e :: e in table ==> exists k :: k in s && e == EntryOf(k, s[k].home))
  }

  lemma StoresOwned(table: seq<Key>, s: Entries, k: Element, home: nat)
    requires Stores(table, s) && ValidElement(k)
    ensures EntryOf(k, home) in table <==> IsOwned(s, k, home)
  {
    if EntryOf(k, home) in table {
      var x :| x in s && EntryOf(k, home) == EntryOf(x, s[x].home);
      EntryInjective(k, x, home);
    }
  }

  lemma UnseenIsProbe(home: nat)
    ensures ValidElement(UNSEEN) && EntryOf(UNSEEN, home) == OwnershipTable.Probe(home)
  {
  }

  /** Every other element lies behind the probe, unless its registrar comes before. */
  lemma BehindProbe(k: Element, home: nat, owner: nat)
    requires ValidElement(k) && k != UNSEEN
    ensures Less(OwnershipTable.Probe(owner), EntryOf(k, home)) <==> home >= owner
  {
    if home == owner && IdOf(k.identifier) == 0 {
      OwnershipTable.SmallestHandle(k.handle);
      if k.handle == [0] {
        IdInjective(k.identifier, UNSEEN.identifier);
        assert false;
      }
    }
  }

  /** The search in the ownership storage misses exactly the element that the handlespace
      model says. */
  lemma MissedIff(table: seq<Key>, s: Entries, owner: nat)
    requires Stores(table, s)
    ensures OwnershipTable.StartMissed(table, owner) <==> Missed(s, owner)
  {
    var probe := OwnershipTable.Probe(owner);
    UnseenIsProbe(owner);
    StoresOwned(table, s, UNSEEN, owner);
    if Missed(s, owner) {
      forall e | e in table ensures !Less(probe, e) {
        var k :| k in s && e == EntryOf(k, s[k].home);
        if k != UNSEEN { BehindProbe(k, s[k].home, owner); } else { KeyOrder(probe, probe, probe); }
      }
      NothingAfter(table, probe);
    } else if OwnershipTable.StartMissed(table, owner) {
      var k :| k in s && k != UNSEEN && s[k].home >= owner;
      BehindProbe(k, s[k].home, owner);
      AfterEffect(table, probe, EntryOf(k, s[k].home));
      assert false;
    }
  }

  lemma {:induction false} NothingAfter(table: seq<Key>, cursor: Key)
    requires forall e :: e in table ==> !Less(cursor, e)
    ensures After(table, cursor) == []
  {
    if table != [] {
      assert table[0] in table;
      NothingAfter(table[1..], cursor);
    }
  }

  // ---- Registering what was downloaded ----------------------------------------------------------------------

  function Registrations(es: seq<Element>, home: nat): (events: seq<Event>)
    ensures |events| == |es| && forall i :: 0 <= i < |es| ==> events[i] == ElementRegistered(es[i], home, true)
  {
    if es == [] then [] else [ElementRegistered(es[0], home, true)] + Registrations(es[1..], home)
  }

  lemma {:induction false} SettledIff(r: Registrar, es: seq<Element>, home: nat, k: Element)
    requires forall x :: x in es ==> ValidElement(x)
    ensures Settled(r, Registrations(es, home), k, home) <==> k in es
    ensures !TakenMarked(r, Registrations(es, home), k, home)
    ensures k !in es ==> Untouched(Registrations(es, home), k)
    decreases |es|
  {
    if es != [] {
      var events, rest := Registrations(es, home), Registrations(es[1..], home);
      assert es[0] in es && events[1..] == rest && events == [events[0]] + rest;
      SettledIff(Apply(r, events[0]), es[1..], home, k);
      assert k in es <==> k == es[0] || k in es[1..];
    }
  }

  lemma {:induction false} RegistrationsSurvive(r: Registrar, es: seq<Element>, home: nat)
    requires home != UNDEFINED
    ensures Survives(r, Registrations(es, home))
    decreases |es|
  {
    if es != [] {
      var events := Registrations(es, home);
      assert events[1..] == Registrations(es[1..], home);
      RegistrationsSurvive(Apply(r, events[0]), es[1..], home);
    }
  }

  // ---- The composition -----------------------------------------------------------------------------------------

  /** The elements whose entries a download delivered. */
  ghost predicate Carries(es: seq<Element>, delivered: seq<Key>, home: nat) {
    && |es| == |delivered|
    && forall i :: 0 <= i < |es| ==> ValidElement(es[i]) && EntryOf(es[i], home) == delivered[i]
  }

  lemma CarriesOwned(es: seq<Element>, table: seq<Key>, s: Entries, home: nat, k: Element)
    requires Stores(table, s) && Carries(es, OwnershipTable.Owned(table, home), home)
    ensures k in es <==> IsOwned(s, k, home)
  {
    var own := OwnershipTable.Owned(table, home);
    if k in es {
      var i :| 0 <= i < |es| && es[i] == k;
      assert own[i] in own;
      OwnershipTable.OwnedMembers(table, home, own[i]);
      StoresOwned(table, s, k, home);
    }
    if IsOwned(s, k, home) {
      StoresOwned(table, s, k, home);
      OwnershipTable.OwnedMembers(table, home, EntryOf(k, home));
      var i :| 0 <= i < |own| && own[i] == EntryOf(k, home);
      EntryInjective(es[i], k, home);
    }
  }

  /** A right download of the table that stores these elements: it has finished, or there
      are more requests than elements to ask for. */
  ghost predicate Downloaded(es: seq<Element>, s: Entries, home: nat, table: seq<Key>, rs: seq<Request>) {
    && Stores(table, s)
    && OwnershipDownload.ValidRequests(rs) && (forall q :: q in rs ==> q.table == table)
    && OwnershipDownload.AllRight(rs, home, OwnershipDownload.Begin(home))
    && (OwnershipDownload.OwnFinished(rs, home, OwnershipDownload.Begin(home)) || |rs| > |OwnershipTable.Owned(table, home)|)
    && Carries(es, OwnershipDownload.OwnDownload(rs, home, OwnershipDownload.Begin(home)), home)
  }

  lemma DownloadTells(r: Registrar, es: seq<Element>, s: Entries, home: nat, table: seq<Key>, rs: seq<Request>, k: Element)
    requires Downloaded(es, s, home, table, rs)
    ensures Belongs(r, Registrations(es, home), k, home) <==> IsOwned(s, k, home)
    ensures !Lost(r, Registrations(es, home), k, home)
  {
    if |rs| > |OwnershipTable.Owned(table, home)| { OwnershipEnd.RightDownloadEnds(rs, table, home); }
    OwnershipDownload.FixedOwnedComplete(rs, table, home);
    assert forall x :: x in es ==> ValidElement(x);
    SettledIff(Apply(r, ElementsMarked(home)), es, home, k);
    CarriesOwned(es, table, s, home, k);
  }

  lemma RegistrationsUndisturbing(es: seq<Element>, home: nat)
    ensures forall e :: e in Registrations(es, home) ==> Undisturbing(e, home)
  {
  }

  /** A peer's ownership table is downloaded, in pages and responses of any size, and every
      page is right; what it delivers is registered, and then the marked elements are
      purged.  Then the peer owns here what it owns there, apart from the element that a
      search can miss, and the stored checksum is the peer's own. */
  lemma DownloadSynchronises(r: Registrar, theirs: Handlespace, table: seq<Key>, rs: seq<Request>,
                             es: seq<Element>, order: seq<Element>, k: Element)
    requires R.Inv(r) && H.Inv(theirs) && theirs.own != UNDEFINED
    requires Downloaded(es, theirs.elements, theirs.own, table, rs)
    requires IsPurge(AfterResponses(r, Registrations(es, theirs.own), theirs.own), order, theirs.own)
    ensures var events := Registrations(es, theirs.own);
      var r' := Synchronised(r, events, order, theirs.own);
      && (IsOwned(r'.handlespace.elements, k, theirs.own) <==>
            IsOwned(theirs.elements, k, theirs.own) || (k == UNSEEN && Overlooked(r, events, theirs.own)))
      && R.Inv(r') && Agrees(r', theirs)
  {
    assert AllValid(theirs.elements);
    hide R.Inv, H.Inv, Downloaded, IsPurge, AfterResponses, Synchronised, Overlooked, Agrees, AllValid, IsOwned, Belongs, Lost, Registrations, Undisturbing, Apply;
    var home, events := theirs.own, Registrations(es, theirs.own);
    forall x ensures (Belongs(r, events, x, home) <==> IsOwned(theirs.elements, x, home)) && !Lost(r, events, x, home) {
      DownloadTells(r, es, theirs.elements, home, table, rs, x);
    }
    RegistrationsUndisturbing(es, home);
    RegistrationsSurvive(Apply(r, ElementsMarked(home)), es, home);
    Resynchronise(r, events, order, home, k);
    ChecksumsMatch(r, events, order, theirs);
  }
}
