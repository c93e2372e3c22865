/**
 What a registration of a peer answers, and what the list holds afterwards.
 */
module PeerRegistration {
  import opened Wrappers
  import opened HandlespaceChecksum
  import opened H = HandlespaceModel
  import opened PeerList
  import opened R = RegistrarModel

  // ---- Members ----------------------------------------------------------------------------------------

  lemma KeyUnique(peers: seq<Peer>, x: Peer, y: Peer)
    requires Sorted(peers) && x in peers && y in peers && SameKey(x, y)
    ensures x == y
  {
    var i :| 0 <= i < |peers| && peers[i] == x;
    var j :| 0 <= j < |peers| && peers[j] == y;
    PeerOrder(x, y, x);
    PeerOrder(y, x, y);
  }

  /** `peers'` is `peers` with `p` instead of `was`. */
  ghost predicate Exchanged(peers: seq<Peer>, peers': seq<Peer>, was: Option<Peer>, p: Peer) {
    forall x :: x in peers' <==> x == p || (x in peers && was != Some(x))
  }

  lemma ReplaceExchanges(peers: seq<Peer>, i: nat, p: Peer)
    requires Sorted(peers) && i < |peers|
    ensures Exchanged(peers, peers[i := p], Some(peers[i]), p)
  {
    var peers' := peers[i := p];
    forall x ensures x in peers' <==> x == p || (x in peers && x != peers[i]) {
      if x in peers' {
        var j :| 0 <= j < |peers'| && peers'[j] == x;
        if j != i {
          assert peers[j] in peers;
          if peers[j] == peers[i] { PeerOrder(peers[i], peers[i], peers[i]); }
        }
      }
      if x == p { assert peers'[i] == p; }
      if x in peers && x != peers[i] {
        var j :| 0 <= j < |peers| && peers[j] == x;
        assert peers'[j] == x;
      }
    }
  }

  lemma InsertExchanges(peers: seq<Peer>, p: Peer)
    ensures Exchanged(peers, Insert(peers, p), None, p)
  {
    forall x ensures x in Insert(peers, p) <==> x in peers || x == p { InsertMembers(peers, p, x); }
  }

  lemma RelinkExchanges(peers: seq<Peer>, i: nat, p: Peer)
    requires Sorted(peers) && i < |peers|
    ensures Exchanged(peers, Insert(RemoveAt(peers, i), p), Some(peers[i]), p)
  {
    var rest := RemoveAt(peers, i);
    assert peers[i] in peers;
    forall x ensures x in Insert(rest, p) <==> x == p || (x in peers && x != peers[i]) {
      InsertMembers(rest, p, x);
      RemoveMembers(peers, i, x);
      if x in peers && SameKey(x, peers[i]) { KeyUnique(peers, x, peers[i]); }
    }
  }

  // ---- The answer ---------------------------------------------------------------------------------------

  /** A dynamic entry must have an identifier and a static one must not; the own identifier
      is refused. */
  function Answer(own: nat, id: nat, dynamic: bool): Error {
    if dynamic && id == UNDEFINED then InvalidId
    else if !dynamic && id != UNDEFINED then InvalidId
    else if own != UNDEFINED && id == own then OwnId
    else Okay
  }

  /** A refused registration changes nothing, except that a static entry may be called new. */
  lemma RegistrationAnswers(r: Registrar, id: nat, dynamic: bool, address: Address, now: nat)
    requires R.Inv(r)
    ensures var (r', error) := RegisterPeer(r, id, dynamic, address, now);
      && error == Answer(r.handlespace.own, id, dynamic)
      && r'.handlespace == r.handlespace
      && (error == InvalidId ==> r' == r)
      && (error == OwnId ==>
            |r'.peers| == |r.peers| && forall i :: 0 <= i < |r.peers| ==> r'.peers[i].(isNew := r.peers[i].isNew) == r.peers[i])
  {
    forall p | p in r.peers ensures Good(r.handlespace, p) {}
    var known := Known(r.peers, id, address);
    if known.Some? { assert r.peers[known.value] in r.peers; }
  }

  // ---- The effect -----------------------------------------------------------------------------------------

  /** The entry that a registration is about.  A dynamic one is about the entry that has its
      identifier, or else about the first one with an address in common, if that is static; a
      static one is about the entry without identifier that has just its addresses. */
  ghost predicate IsAbout(peers: seq<Peer>, id: nat, dynamic: bool, address: Address, was: Option<Peer>) {
    if !dynamic then
      if exists p :: p in peers && SameKey(p, FreshPeer(UNDEFINED, false, address))
      then was.Some? && was.value in peers && SameKey(was.value, FreshPeer(UNDEFINED, false, address))
      else was.None?
    else if exists p :: p in peers && p.id == id then was.Some? && was.value in peers && was.value.id == id
    else
      var i := FindOverlap(peers, address);
      was == if i.Some? && !peers[i.value].dynamic then Some(peers[i.value]) else None
  }

  /** What the entry is afterwards. */
  ghost predicate IsRegistered(h: Handlespace, id: nat, dynamic: bool, address: Address, now: nat, was: Option<Peer>, p: Peer) {
    && p.id == id && p.checksum == OwnershipChecksum(h, id)
    && (p.timer == if was.None? then None else was.value.timer)
    && if dynamic && was.Some? && !was.value.dynamic
       then !p.dynamic && p.address == was.value.address && p.updated == was.value.updated && (p.isNew <==> was.value.id == UNDEFINED)
       else p.dynamic == dynamic && p.address == address && p.updated == now && (p.isNew <==> was.None?)
  }

  lemma AboutById(peers: seq<Peer>, id: nat, address: Address)
    ensures var i := FindId(peers, id);
      i.Some? ==> IsAbout(peers, id, true, address, Some(peers[i.value]))
  {
    var i := FindId(peers, id);
    if i.Some? { assert peers[i.value] in peers; }
  }

  lemma StaticUpdated(r: Registrar, id: nat, address: Address, now: nat, i: nat) returns (p: Peer)
    requires R.Inv(r) && id != UNDEFINED && !IsOwnId(r.handlespace, id)
    requires Known(r.peers, id, address) == Some(i) && !r.peers[i].dynamic
    ensures var r', was := UpdateStatic(r, i, id).0, Some(r.peers[i]);
      && IsAbout(r.peers, id, true, address, was) && IsRegistered(r.handlespace, id, true, address, now, was, p)
      && Exchanged(r.peers, r'.peers, was, p)
  {
    p := r.peers[i].(id := id, isNew := r.peers[i].id == UNDEFINED, checksum := OwnershipChecksum(r.handlespace, id));
    AboutById(r.peers, id, address);
    hide OwnershipChecksum;
    if r.peers[i].id == id { ReplaceExchanges(r.peers, i, p); } else { RelinkExchanges(r.peers, i, p); }
  }

  lemma AddedOrUpdated(r: Registrar, id: nat, dynamic: bool, address: Address, now: nat) returns (was: Option<Peer>, p: Peer)
    requires R.Inv(r) && dynamic == (id != UNDEFINED) && !IsOwnId(r.handlespace, id)
    requires dynamic && Known(r.peers, id, address).Some? ==> r.peers[Known(r.peers, id, address).value].dynamic
    ensures var r' := AddOrUpdate(r, id, dynamic, address, now).0;
      && IsAbout(r.peers, id, dynamic, address, was) && IsRegistered(r.handlespace, id, dynamic, address, now, was, p)
      && Exchanged(r.peers, r'.peers, was, p)
  {
    var plain, h, peers := FreshPeer(id, dynamic, address), r.handlespace, r.peers;
    PresentIff(peers, plain);
    AboutById(peers, id, address);
    if Present(peers, plain) {
      var i := Position(peers, plain);
      was := Some(peers[i]);
      assert peers[i] in peers && Good(h, peers[i]);
      p := peers[i].(dynamic := dynamic, isNew := false, address := address, updated := now, checksum := OwnershipChecksum(h, id));
      ReplaceExchanges(peers, i, p);
      if dynamic {
        var k := FindId(peers, id);
        assert k.Some?;
        KeyUnique(peers, peers[i], peers[k.value]);
      }
    } else {
      was, p := None, plain.(isNew := true, updated := now, checksum := OwnershipChecksum(h, id));
      assert Position(peers, p) == Position(peers, plain) by { SamePosition(peers, p, plain); }
      InsertExchanges(peers, p);
    }
  }

  lemma {:induction false} SamePosition(peers: seq<Peer>, a: Peer, b: Peer)
    requires a.id == b.id && a.address == b.address
    ensures Position(peers, a) == Position(peers, b)
  {
    if peers != [] && Precedes(peers[0], a) { SamePosition(peers[1..], a, b); }
  }

  /** An accepted registration: the list holds exactly one entry for it, as registered, in
      place of the entry that it was about, and every other entry stays as it was. */
  lemma RegistrationListsPeer(r: Registrar, id: nat, dynamic: bool, address: Address, now: nat) returns (was: Option<Peer>, p: Peer)
    requires R.Inv(r) && Answer(r.handlespace.own, id, dynamic) == Okay
    ensures var r' := RegisterPeer(r, id, dynamic, address, now).0;
      && IsAbout(r.peers, id, dynamic, address, was)
      && IsRegistered(r.handlespace, id, dynamic, address, now, was, p)
      && Exchanged(r.peers, r'.peers, was, p)
      && p in r'.peers && forall x :: x in r'.peers && SameKey(x, p) ==> x == p
  {
    var known := Known(r.peers, id, address);
    if dynamic && known.Some? && !r.peers[known.value].dynamic {
      was := Some(r.peers[known.value]);
      p := StaticUpdated(r, id, address, now, known.value);
    } else {
      was, p := AddedOrUpdated(r, id, dynamic, address, now);
    }
    RegisterPeerKeeps(r, id, dynamic, address, now);
    var peers' := RegisterPeer(r, id, dynamic, address, now).0.peers;
    hide RegisterPeer, OwnershipChecksum, IsAbout, IsRegistered;
    forall x | x in peers' && SameKey(x, p) ensures x == p { KeyUnique(peers', x, p); }
  }

  /** A deregistered entry is gone; if it was static and had an identifier, its address stays
      listed without one.  Every other entry stays as it was. */
  lemma DeregistrationEffect(r: Registrar, i: nat, x: Peer)
    requires R.Inv(r) && i < |r.peers|
    ensures var p := r.peers[i];
      x in R.Apply(r, PeerDeregistered(i)).peers <==>
        (x in r.peers && x != p) || (!p.dynamic && p.id != UNDEFINED && x == FreshPeer(UNDEFINED, false, p.address))
  {
    var p, rest := r.peers[i], RemoveAt(r.peers, i);
    RemoveMembers(r.peers, i, x);
    if x in r.peers && SameKey(x, p) { KeyUnique(r.peers, x, p); }
    InsertMembers(rest, Demoted(p), x);
  }

  /** A restarted timer runs out when the given time has passed since the entry was updated
      last, and no other entry is touched. */
  lemma RestartedTimer(r: Registrar, i: nat, expiry: nat, now: nat)
    requires i < |r.peers|
    ensures var peers := R.Apply(r, TimerRestarted(i, r.peers[i].updated + expiry)).peers;
      && |peers| == |r.peers| && (forall j :: 0 <= j < |peers| && j != i ==> peers[j] == r.peers[j])
      && peers[i] == r.peers[i].(timer := peers[i].timer)
      && (IsExpired(peers[i], now) <==> now - r.peers[i].updated >= expiry)
  {
  }
}
