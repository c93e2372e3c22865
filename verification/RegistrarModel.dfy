/**
 A registrar's handlespace together with its peer list: every registration, removal and
 expiry of peers and of pool elements, in any order.
 */
module RegistrarModel {
  import opened Wrappers
  import opened HandlespaceChecksum
  import opened H = HandlespaceModel
  import opened PeerList

  datatype Registrar = Registrar(handlespace: Handlespace, peers: seq<Peer>)

  datatype Error = Okay | InvalidId | OwnId | InvalidPoolHandle | Refused | NotFound

  /** The checksum over the elements of a registrar, computed from scratch. */
  ghost function OwnershipChecksum(h: Handlespace, id: nat): Accumulator {
    Sum(h.elements, ChecksumsOf(id)) % ACCUMULATOR
  }

  predicate IsOwnId(h: Handlespace, id: nat) { h.own != UNDEFINED && id == h.own }

  // ---- Peers ---------------------------------------------------------------------------------------

  /** A static entry gets to know its identifier, or is confirmed. */
  ghost function UpdateStatic(r: Registrar, i: nat, id: nat): (Registrar, Error)
    requires i < |r.peers|
  {
    var p, h := r.peers[i], r.handlespace;
    if IsOwnId(h, id) then
      (r.(peers := r.peers[i := p.(isNew := p.isNew || p.id == UNDEFINED, checksum := OwnershipChecksum(h, p.id))]), OwnId)
    else
      var q := p.(id := id, isNew := p.id == UNDEFINED, checksum := OwnershipChecksum(h, id));
      (r.(peers := if p.id == id then r.peers[i := q] else Insert(RemoveAt(r.peers, i), q)), Okay)
  }

  ghost function AddOrUpdate(r: Registrar, id: nat, dynamic: bool, address: Address, now: nat): (Registrar, Error) {
    var p, h := FreshPeer(id, dynamic, address), r.handlespace;
    if IsOwnId(h, id) then (r, OwnId)
    else if Present(r.peers, p) then
      var i := Position(r.peers, p);
      var q := r.peers[i].(dynamic := dynamic, isNew := false, address := address, updated := now,
                           checksum := OwnershipChecksum(h, id));
      (r.(peers := r.peers[i := q]), Okay)
    else
      var q := p.(isNew := true, updated := now, checksum := OwnershipChecksum(h, id));
      (r.(peers := Insert(r.peers, q)), Okay)
  }

  /** The entry that a dynamic registration is about: by identifier, else by address. */
  function Known(peers: seq<Peer>, id: nat, address: Address): (i: Option<nat>)
    ensures i.Some? ==> i.value < |peers|
  {
    var byId := FindId(peers, id);
    if byId.Some? then byId else FindOverlap(peers, address)
  }

  ghost function RegisterPeer(r: Registrar, id: nat, dynamic: bool, address: Address, now: nat): (Registrar, Error) {
    if dynamic == (id == UNDEFINED) then (r, InvalidId)
    else
      var known := Known(r.peers, id, address);
      if dynamic && known.Some? && !r.peers[known.value].dynamic then UpdateStatic(r, known.value, id)
      else AddOrUpdate(r, id, dynamic, address, now)
  }

  /** A static entry goes back to having no identifier; any other entry goes away. */
  function Demoted(p: Peer): Peer { FreshPeer(UNDEFINED, false, p.address) }

  predicate IsDemoted(p: Peer) { !p.dynamic && p.id != UNDEFINED }

  /** The check in the deregistration: the entry can be put back into the list. */
  predicate DeregisterCheck(peers: seq<Peer>, i: nat)
    requires i < |peers|
  {
    IsDemoted(peers[i]) ==> !Present(RemoveAt(peers, i), Demoted(peers[i]))
  }

  function DeregisterPeer(peers: seq<Peer>, i: nat): seq<Peer>
    requires i < |peers|
  {
    var rest := RemoveAt(peers, i);
    if IsDemoted(peers[i]) then Insert(rest, Demoted(peers[i])) else rest
  }

  /** The entries whose timers have run out. */
  predicate IsExpired(p: Peer, now: nat) { p.timer.Some? && p.timer.value <= now }

  // ---- Events ---------------------------------------------------------------------------------------

  datatype Event =
    | PeerRegistered(id: nat, dynamic: bool, address: Address, now: nat)
    | PeerDeregistered(index: nat)
    | TimerRestarted(index: nat, deadline: nat)
    | ElementRegistered(key: Element, home: nat, accepted: bool)
    | ElementRemoved(key: Element)
    | OwnershipChanged(key: Element, home: nat)
    | ElementsMarked(owner: nat)

  function Changed(r: Registrar, c: (Handlespace, Notification)): Registrar {
    Registrar(c.0, Notify(r.peers, c.1))
  }

  /** Elements of pools with an invalid handle, and such that do not fit their pool, are
      refused.  Identifiers have four bytes. */
  predicate IsAccepted(key: Element, accepted: bool) { ValidElement(key) && accepted }

  /** One event; events about entries or elements that do not exist do nothing. */
  ghost function Apply(r: Registrar, e: Event): Registrar {
    var h := r.handlespace;
    match e
    case PeerRegistered(id, dynamic, address, now) => RegisterPeer(r, id, dynamic, address, now).0
    case PeerDeregistered(i) => if i < |r.peers| then r.(peers := DeregisterPeer(r.peers, i)) else r
    case TimerRestarted(i, deadline) =>
      if i < |r.peers| then r.(peers := r.peers[i := r.peers[i].(timer := Some(deadline))]) else r
    case ElementRegistered(key, home, accepted) =>
      if IsAccepted(key, accepted) then Changed(r, H.Register(h, key, home)) else r
    case ElementRemoved(key) => if key in h.elements then Changed(r, H.Remove(h, key)) else r
    case OwnershipChanged(key, home) => if key in h.elements then Changed(r, H.UpdateOwnership(h, key, home)) else r
    case ElementsMarked(owner) => r.(handlespace := H.Mark(h, owner))
  }

  ghost function Run(r: Registrar, events: seq<Event>): Registrar
    decreases |events|
  {
    if events == [] then r else Run(Apply(r, events[0]), events[1..])
  }

  /** The check on the number of owned elements, when an element goes or changes hands. */
  predicate OwnedCheck(h: Handlespace, k: Element) {
    k in h.elements && h.elements[k].home == h.own ==> h.owned > 0
  }

  /** The check that an entry is found where the index storage has it. */
  predicate LinkedCheck(peers: seq<Peer>, i: nat)
    requires i < |peers|
  {
    Position(peers, peers[i]) == i
  }

  /** The checks when a static entry is relinked under a new identifier: it is found under
      the old one, and nothing is in the way under the new one. */
  predicate RelinkCheck(peers: seq<Peer>, i: nat, id: nat)
    requires i < |peers|
  {
    peers[i].id != id ==> LinkedCheck(peers, i) && !Present(RemoveAt(peers, i), peers[i].(id := id))
  }

  /** No check of the code fails on the way. */
  predicate ChecksHold(r: Registrar, e: Event) {
    match e
    case PeerRegistered(id, dynamic, address, _) =>
      var known := Known(r.peers, id, address);
      dynamic && id != UNDEFINED && !IsOwnId(r.handlespace, id) && known.Some? && !r.peers[known.value].dynamic ==>
        RelinkCheck(r.peers, known.value, id)
    case PeerDeregistered(i) => i < |r.peers| ==> LinkedCheck(r.peers, i) && DeregisterCheck(r.peers, i)
    case ElementRegistered(k, _, accepted) => IsAccepted(k, accepted) ==> OwnedCheck(r.handlespace, k)
    case ElementRemoved(k) => OwnedCheck(r.handlespace, k)
    case OwnershipChanged(k, _) => OwnedCheck(r.handlespace, k)
    case _ => true
  }

  ghost predicate RunChecksHold(r: Registrar, events: seq<Event>)
    decreases |events|
  {
    events == [] || (ChecksHold(r, events[0]) && RunChecksHold(Apply(r, events[0]), events[1..]))
  }

  // ---- Conditions -------------------------------------------------------------------------------------

  /** A static address is not registered again while its entry carries an identifier. */
  predicate StaticIsFree(peers: seq<Peer>, address: Address) {
    forall p :: p in peers && IsDemoted(p) ==> p.address != address
  }

  /** Elements have home registrars with an identifier. */
  predicate HomeGiven(e: Event) {
    (e.ElementRegistered? ==> e.home != UNDEFINED) && (e.OwnershipChanged? ==> e.home != UNDEFINED)
  }

  predicate Legal(r: Registrar, e: Event) {
    HomeGiven(e) && (e.PeerRegistered? && !e.dynamic && e.id == UNDEFINED ==> StaticIsFree(r.peers, e.address))
  }

  /** The event does not end in the check that an entry can be put back. */
  predicate Survivable(r: Registrar, e: Event) {
    HomeGiven(e) && (e.PeerDeregistered? && e.index < |r.peers| ==> DeregisterCheck(r.peers, e.index))
  }

  ghost predicate Survives(r: Registrar, events: seq<Event>)
    decreases |events|
  {
    events == [] || (Survivable(r, events[0]) && Survives(Apply(r, events[0]), events[1..]))
  }

  ghost predicate LegalRun(r: Registrar, events: seq<Event>)
    decreases |events|
  {
    events == [] || (Legal(r, events[0]) && LegalRun(Apply(r, events[0]), events[1..]))
  }

  // ---- The invariant ------------------------------------------------------------------------------------

  predicate HomesDefined(h: Handlespace) {
    forall k :: k in h.elements ==> h.elements[k].home != UNDEFINED
  }

  /** One entry: its checksum is the recomputed one, it is not this registrar, and if it
      is dynamic it has an identifier. */
  ghost predicate Good(h: Handlespace, p: Peer) {
    && p.checksum == OwnershipChecksum(h, p.id)
    && !(IsOwnId(h, p.id) && p.id != UNDEFINED)
    && (p.dynamic ==> p.id != UNDEFINED)
  }

  ghost predicate AllGood(h: Handlespace, peers: seq<Peer>) {
    forall p :: p in peers ==> Good(h, p)
  }

  /** No two static entries have the same addresses. */
  ghost predicate StaticDistinct(peers: seq<Peer>) {
    forall p, q :: p in peers && q in peers && !p.dynamic && !q.dynamic && p.address == q.address ==> SameKey(p, q)
  }

  ghost predicate PeersInv(h: Handlespace, peers: seq<Peer>) {
    Sorted(peers) && AllGood(h, peers)
  }

  ghost predicate Inv(r: Registrar) {
    && H.Inv(r.handlespace)
    && HomesDefined(r.handlespace) && AllValid(r.handlespace.elements)
    && PeersInv(r.handlespace, r.peers)
  }

  lemma NothingUndefined(h: Handlespace)
    requires HomesDefined(h)
    ensures OwnershipChecksum(h, UNDEFINED) == 0
  {
    SumCongruent(h.elements, map[], ChecksumsOf(UNDEFINED));
  }

  // ---- Changes of the peer list --------------------------------------------------------------------------

  /** One entry is put in or replaced. */
  lemma GoodAfter(h: Handlespace, peers: seq<Peer>, peers': seq<Peer>, q: Peer)
    requires AllGood(h, peers) && Good(h, q)
    requires forall x :: x in peers' ==> x in peers || x == q
    ensures AllGood(h, peers')
  {
  }

  lemma ReplaceMembers(peers: seq<Peer>, i: nat, q: Peer, x: Peer)
    requires Sorted(peers) && i < |peers| && SameKey(peers[i], q)
    ensures x in peers[i := q] ==> x == q || (x in peers && !SameKey(x, peers[i]))
  {
    if x in peers[i := q] {
      var j :| 0 <= j < |peers| && peers[i := q][j] == x;
      PeerOrder(x, peers[i], x);
      PeerOrder(peers[i], x, x);
    }
  }

  lemma ReplaceKeeps(h: Handlespace, peers: seq<Peer>, i: nat, q: Peer)
    requires PeersInv(h, peers) && i < |peers| && SameKey(peers[i], q) && Good(h, q)
    ensures PeersInv(h, peers[i := q])
  {
    var peers' := peers[i := q];
    ReplaceSorted(peers, i, q);
    forall x | x in peers' ensures x in peers || x == q { ReplaceMembers(peers, i, q, x); }
    GoodAfter(h, peers, peers', q);
  }

  lemma RemoveKeeps(h: Handlespace, peers: seq<Peer>, i: nat)
    requires PeersInv(h, peers) && i < |peers|
    ensures PeersInv(h, RemoveAt(peers, i))
  {
    RemoveSorted(peers, i);
    forall x | x in RemoveAt(peers, i) ensures x in peers { RemoveMembers(peers, i, x); }
  }

  lemma InsertKeeps(h: Handlespace, peers: seq<Peer>, q: Peer)
    requires PeersInv(h, peers) && !Present(peers, q) && Good(h, q)
    ensures PeersInv(h, Insert(peers, q))
  {
    InsertSorted(peers, q);
    forall x | x in Insert(peers, q) ensures x in peers || x == q { InsertMembers(peers, q, x); }
    GoodAfter(h, peers, Insert(peers, q), q);
  }

  lemma IsLinked(peers: seq<Peer>, i: nat)
    requires Sorted(peers) && i < |peers|
    ensures LinkedCheck(peers, i)
  {
    PeerOrder(peers[i], peers[i], peers[i]);
    var n := Position(peers, peers[i]);
    assert n < |peers| ==> !Precedes(peers[n], peers[i]);
  }

  lemma RelinkWorks(peers: seq<Peer>, i: nat, id: nat)
    requires Sorted(peers) && i < |peers| && id != UNDEFINED
    requires peers[i].id == id || forall p :: p in peers ==> p.id != id
    ensures RelinkCheck(peers, i, id)
  {
    if peers[i].id != id {
      IsLinked(peers, i);
      var rest := RemoveAt(peers, i);
      RemoveSorted(peers, i);
      PresentIff(rest, peers[i].(id := id));
      forall x | x in rest ensures x.id != id { RemoveMembers(peers, i, x); }
    }
  }

  lemma UpdateStaticKeeps(r: Registrar, i: nat, id: nat)
    requires Inv(r) && i < |r.peers| && !r.peers[i].dynamic && id != UNDEFINED
    requires r.peers[i].id == id || forall p :: p in r.peers ==> p.id != id
    ensures Inv(UpdateStatic(r, i, id).0) && RelinkCheck(r.peers, i, id)
  {
    var p, h := r.peers[i], r.handlespace;
    assert p in r.peers && Good(h, p);
    RelinkWorks(r.peers, i, id);
    if IsOwnId(h, id) {
      ReplaceKeeps(h, r.peers, i, p.(isNew := p.isNew || p.id == UNDEFINED, checksum := OwnershipChecksum(h, p.id)));
    } else {
      var q := p.(id := id, isNew := p.id == UNDEFINED, checksum := OwnershipChecksum(h, id));
      if p.id == id {
        ReplaceKeeps(h, r.peers, i, q);
      } else {
        var rest := RemoveAt(r.peers, i);
        RemoveKeeps(h, r.peers, i);
        PresentIff(rest, q);
        forall x | x in rest ensures x.id != id { RemoveMembers(r.peers, i, x); }
        InsertKeeps(h, rest, q);
      }
    }
  }

  lemma AddOrUpdateKeeps(r: Registrar, id: nat, dynamic: bool, address: Address, now: nat)
    requires Inv(r) && dynamic == (id != UNDEFINED)
    ensures Inv(AddOrUpdate(r, id, dynamic, address, now).0)
  {
    var p, h, peers := FreshPeer(id, dynamic, address), r.handlespace, r.peers;
    PresentIff(peers, p);
    if IsOwnId(h, id) {
    } else if Present(peers, p) {
      var i := Position(peers, p);
      var q := peers[i].(dynamic := dynamic, isNew := false, address := address, updated := now,
                         checksum := OwnershipChecksum(h, id));
      assert peers[i] in peers && Good(h, peers[i]);
      ReplaceKeeps(h, peers, i, q);
    } else {
      var q := p.(isNew := true, updated := now, checksum := OwnershipChecksum(h, id));
      PresentIff(peers, q);
      InsertKeeps(h, peers, q);
      assert Position(peers, q) == Position(peers, p);
    }
  }

  lemma RegisterPeerKeeps(r: Registrar, id: nat, dynamic: bool, address: Address, now: nat)
    requires Inv(r)
    ensures Inv(RegisterPeer(r, id, dynamic, address, now).0)
    ensures ChecksHold(r, PeerRegistered(id, dynamic, address, now))
  {
    if dynamic != (id == UNDEFINED) {
      var known := Known(r.peers, id, address);
      if dynamic && known.Some? && !r.peers[known.value].dynamic {
        UpdateStaticKeeps(r, known.value, id);
      } else {
        AddOrUpdateKeeps(r, id, dynamic, address, now);
      }
    }
  }

  /** Deregistration: if the entry can be put back, the list stays right. */
  lemma DeregisterKeeps(r: Registrar, i: nat)
    requires Inv(r) && i < |r.peers|
    ensures LinkedCheck(r.peers, i)
    ensures DeregisterCheck(r.peers, i) ==> Inv(r.(peers := DeregisterPeer(r.peers, i)))
  {
    IsLinked(r.peers, i);
    RemoveKeeps(r.handlespace, r.peers, i);
    if DeregisterCheck(r.peers, i) && IsDemoted(r.peers[i]) {
      NothingUndefined(r.handlespace);
      InsertKeeps(r.handlespace, RemoveAt(r.peers, i), Demoted(r.peers[i]));
    }
  }

  // ---- Changes of the handlespace ---------------------------------------------------------------------------

  /** A change of the handlespace and its notification belong together: for every
      registrar the notification turns the old checksum into the recomputed one. */
  lemma UpdateAdjusts(h: Handlespace, k: Element, home: nat, id: nat)
    requires k in h.elements
    ensures var c := H.UpdateOwnership(h, k, home);
      OwnershipChecksum(c.0, id) == Adjusted(OwnershipChecksum(h, id), c.1, id)
  {
    var was, m := h.elements[k], ChecksumsOf(id);
    var now := was.(home := home, checksum := Checksum(k, h.bigEndian));
    SumRemove(h.elements, m, k);
    SumPut(h.elements, m, k, now);
    SwapWeights(was, now, id, Sum(h.elements - {k}, m));
  }

  /** One element's contribution is replaced by another one. */
  lemma SwapWeights(was: Entry, now: Entry, id: nat, rest: nat)
    ensures var m := ChecksumsOf(id);
      (Weight(now, m) + rest) % ACCUMULATOR ==
        Adjusted((Weight(was, m) + rest) % ACCUMULATOR, Updated(was.home, was.checksum, now.home, now.checksum), id)
  {
    SubModulo(was.checksum, rest);
    SubModulo(now.checksum, rest);
  }

  lemma RemoveAdjusts(h: Handlespace, k: Element, id: nat)
    requires k in h.elements
    ensures var c := H.Remove(h, k);
      OwnershipChecksum(c.0, id) == Adjusted(OwnershipChecksum(h, id), c.1, id)
  {
    SumRemove(h.elements, ChecksumsOf(id), k);
    SubModulo(h.elements[k].checksum, Sum(h.elements - {k}, ChecksumsOf(id)));
  }

  lemma RegisterAdjusts(h: Handlespace, k: Element, home: nat, id: nat)
    ensures var c := H.Register(h, k, home);
      OwnershipChecksum(c.0, id) == Adjusted(OwnershipChecksum(h, id), c.1, id)
  {
    if k in h.elements {
      var s := h.elements[k := h.elements[k].(marked := false)];
      SumCongruent(h.elements, s, ChecksumsOf(id));
      UpdateAdjusts(h.(elements := s), k, home, id);
    } else {
      var now := Entry(home, Checksum(k, h.bigEndian), false);
      SumPut(h.elements, ChecksumsOf(id), k, now);
      SumAbsent(h.elements, ChecksumsOf(id), k);
      SubModulo(now.checksum, Sum(h.elements, ChecksumsOf(id)));
    }
  }

  lemma GoodAdjusted(h: Handlespace, c: (Handlespace, Notification), p: Peer)
    requires Good(h, p) && c.0.own == h.own
    requires OwnershipChecksum(c.0, p.id) == Adjusted(OwnershipChecksum(h, p.id), c.1, p.id)
    ensures Good(c.0, p.(checksum := Adjusted(p.checksum, c.1, p.id)))
  {
  }

  lemma NotifyKeeps(r: Registrar, c: (Handlespace, Notification))
    requires PeersInv(r.handlespace, r.peers) && Defined(c.1) && c.0.own == r.handlespace.own
    requires forall id :: OwnershipChecksum(c.0, id) == Adjusted(OwnershipChecksum(r.handlespace, id), c.1, id)
    ensures PeersInv(c.0, Changed(r, c).peers)
  {
    var peers, peers' := r.peers, Notify(r.peers, c.1);
    NotifyEffect(peers, c.1);
    hide OwnershipChecksum, Notify, Adjusted, Good, Sorted;
    forall x | x in peers' ensures Good(c.0, x) {
      var j :| 0 <= j < |peers'| && peers'[j] == x;
      assert peers[j] in peers;
      GoodAdjusted(r.handlespace, c, peers[j]);
    }
  }

  /** An owned element has been counted. */
  lemma OwnedCounted(h: Handlespace, k: Element)
    requires H.Inv(h)
    ensures OwnedCheck(h, k)
  {
    if k in h.elements { RemoveKeepsInv(h, k); }
  }

  lemma RegisterFacts(h: Handlespace, k: Element, home: nat)
    requires HomesDefined(h) && AllValid(h.elements) && ValidElement(k) && home != UNDEFINED
    ensures var c := H.Register(h, k, home);
      HomesDefined(c.0) && AllValid(c.0.elements) && Defined(c.1) && c.0.own == h.own
  {
  }

  lemma RegistrationKeeps(r: Registrar, k: Element, home: nat)
    requires Inv(r) && ValidElement(k) && home != UNDEFINED
    ensures Inv(Changed(r, H.Register(r.handlespace, k, home)))
  {
    RegisterFacts(r.handlespace, k, home);
    RegisterKeepsInv(r.handlespace, k, home);
    hide H.Register, H.Inv, PeersInv, OwnershipChecksum, HomesDefined, AllValid, Adjusted;
    var h, c := r.handlespace, H.Register(r.handlespace, k, home);
    forall id ensures OwnershipChecksum(c.0, id) == Adjusted(OwnershipChecksum(h, id), c.1, id) {
      RegisterAdjusts(h, k, home, id);
    }
    NotifyKeeps(r, c);
  }

  lemma RemovalKeeps(r: Registrar, k: Element)
    requires Inv(r) && k in r.handlespace.elements
    ensures Inv(Changed(r, H.Remove(r.handlespace, k)))
  {
    var h, c := r.handlespace, H.Remove(r.handlespace, k);
    forall id ensures OwnershipChecksum(c.0, id) == Adjusted(OwnershipChecksum(h, id), c.1, id) {
      RemoveAdjusts(h, k, id);
    }
    RemoveKeepsInv(h, k);
    hide H.Inv, PeersInv, OwnershipChecksum;
    NotifyKeeps(r, c);
  }

  lemma OwnershipKeeps(r: Registrar, k: Element, home: nat)
    requires Inv(r) && k in r.handlespace.elements && home != UNDEFINED
    ensures Inv(Changed(r, H.UpdateOwnership(r.handlespace, k, home)))
  {
    var h, c := r.handlespace, H.UpdateOwnership(r.handlespace, k, home);
    forall id ensures OwnershipChecksum(c.0, id) == Adjusted(OwnershipChecksum(h, id), c.1, id) {
      UpdateAdjusts(h, k, home, id);
    }
    UpdateKeepsInv(h, k, home);
    hide H.Inv, PeersInv, OwnershipChecksum;
    NotifyKeeps(r, c);
  }

  lemma ElementChangeKeeps(r: Registrar, e: Event)
    requires Inv(r) && HomeGiven(e)
    requires e.ElementRegistered? || e.ElementRemoved? || e.OwnershipChanged?
    ensures Inv(Apply(r, e)) && ChecksHold(r, e)
  {
    OwnedCounted(r.handlespace, e.key);
    hide Inv, H.Register, H.Remove, H.UpdateOwnership, Changed;
    match e
    case ElementRegistered(k, home, accepted) => if IsAccepted(k, accepted) { RegistrationKeeps(r, k, home); }
    case ElementRemoved(k) => if k in r.handlespace.elements { RemovalKeeps(r, k); }
    case OwnershipChanged(k, home) => if k in r.handlespace.elements { OwnershipKeeps(r, k, home); }
  }

  lemma MarkedSum(h: Handlespace, owner: nat, id: nat)
    ensures OwnershipChecksum(H.Mark(h, owner), id) == OwnershipChecksum(h, id)
  {
    SumCongruent(h.elements, H.Mark(h, owner).elements, ChecksumsOf(id));
  }

  lemma MarkKeeps(r: Registrar, owner: nat)
    requires Inv(r)
    ensures Inv(Apply(r, ElementsMarked(owner)))
  {
    var h, h' := r.handlespace, H.Mark(r.handlespace, owner);
    MarkKeepsInv(h, owner);
    assert HomesDefined(h') && AllValid(h'.elements) && h'.own == h.own;
    hide H.Inv, H.Mark, OwnershipChecksum, Sorted, HomesDefined, AllValid;
    forall p | p in r.peers ensures Good(h', p) {
      assert Good(h, p);
      MarkedSum(h, owner, p.id);
    }
  }

  lemma TimerKeeps(r: Registrar, i: nat, deadline: nat)
    requires Inv(r) && i < |r.peers|
    ensures Inv(Apply(r, TimerRestarted(i, deadline)))
  {
    assert r.peers[i] in r.peers && Good(r.handlespace, r.peers[i]);
    ReplaceKeeps(r.handlespace, r.peers, i, r.peers[i].(timer := Some(deadline)));
  }

  // ---- Whole runs ---------------------------------------------------------------------------------------------

  lemma StepKeepsInv(r: Registrar, e: Event)
    requires Inv(r) && Survivable(r, e)
    ensures Inv(Apply(r, e)) && ChecksHold(r, e)
  {
    match e
    case PeerRegistered(id, dynamic, address, now) => RegisterPeerKeeps(r, id, dynamic, address, now);
    case PeerDeregistered(i) => if i < |r.peers| { DeregisterKeeps(r, i); }
    case TimerRestarted(i, deadline) => if i < |r.peers| { TimerKeeps(r, i, deadline); }
    case ElementsMarked(owner) => MarkKeeps(r, owner);
    case _ => ElementChangeKeeps(r, e);
  }

  lemma {:induction false} RunKeepsInv(r: Registrar, events: seq<Event>)
    requires Inv(r) && Survives(r, events)
    ensures Inv(Run(r, events)) && RunChecksHold(r, events)
    decreases |events|
  {
    if events != [] {
      StepKeepsInv(r, events[0]);
      RunKeepsInv(Apply(r, events[0]), events[1..]);
    }
  }

  function Initial(own: nat, bigEndian: bool): Registrar {
    Registrar(Handlespace(own, bigEndian, map[], 0, 0, 0), [])
  }

  /** Ownership checksum agreement: whatever the order of events, as long as no
      deregistration has failed its check, every listed peer holds the recomputed checksum
      of its elements, identifiers are unique, this registrar does not list itself, dynamic
      entries have an identifier, the registrar's own checksums are the recomputed ones, and
      no other check fails either. */
  lemma ChecksumsAgree(own: nat, bigEndian: bool, events: seq<Event>)
    requires Survives(Initial(own, bigEndian), events)
    ensures RunChecksHold(Initial(own, bigEndian), events)
    ensures var r := Run(Initial(own, bigEndian), events);
      && (forall k :: k in r.handlespace.elements ==> r.handlespace.elements[k].checksum == Checksum(k, bigEndian))
      && (forall p :: p in r.peers ==> p.checksum == OwnershipChecksum(r.handlespace, p.id))
      && (forall i, j :: 0 <= i < j < |r.peers| ==> r.peers[i].id != r.peers[j].id || r.peers[i].id == UNDEFINED)
      && (forall p :: p in r.peers ==> p.id == UNDEFINED || p.id != own)
      && (forall p :: p in r.peers && p.dynamic ==> p.id != UNDEFINED)
      && r.handlespace.total == Sum(r.handlespace.elements, AllChecksums) % ACCUMULATOR
      && r.handlespace.ownedTotal == OwnershipChecksum(r.handlespace, own)
      && r.handlespace.owned == Sum(r.handlespace.elements, NumberOf(own))
  {
    var r0 := Initial(own, bigEndian);
    assert Inv(r0);
    RunKeepsInv(r0, events);
    var r := Run(r0, events);
    OwnKept(r0, events);
    forall p | p in r.peers ensures Good(r.handlespace, p) {}
  }

  lemma {:induction false} OwnKept(r: Registrar, events: seq<Event>)
    ensures Run(r, events).handlespace.own == r.handlespace.own
    ensures Run(r, events).handlespace.bigEndian == r.handlespace.bigEndian
    decreases |events|
  {
    if events != [] { OwnKept(Apply(r, events[0]), events[1..]); }
  }

  // ---- Static addresses -----------------------------------------------------------------------------------------

  /** `peers'` differs from `peers` in checksums only. */
  predicate SameButChecksums(peers: seq<Peer>, peers': seq<Peer>) {
    |peers| == |peers'| && forall j :: 0 <= j < |peers| ==> peers'[j].(checksum := 0) == peers[j].(checksum := 0)
  }

  lemma DistinctKept(peers: seq<Peer>, peers': seq<Peer>)
    requires StaticDistinct(peers) && SameButChecksums(peers, peers')
    ensures StaticDistinct(peers')
  {
    forall x, y | x in peers' && y in peers' && !x.dynamic && !y.dynamic && x.address == y.address ensures SameKey(x, y) {
      var i :| 0 <= i < |peers'| && peers'[i] == x;
      var j :| 0 <= j < |peers'| && peers'[j] == y;
      assert peers[i] in peers && peers[j] in peers;
    }
  }

  lemma OthersDynamic(peers: seq<Peer>, id: nat, address: Address)
    requires Sorted(peers) && id != UNDEFINED
    requires Known(peers, id, address).Some? ==> peers[Known(peers, id, address).value].dynamic
    ensures forall p :: p in peers && p.id == id ==> p.dynamic
  {
    var byId := FindId(peers, id);
    forall p | p in peers && p.id == id ensures p.dynamic {
      var j :| 0 <= j < |peers| && peers[j] == p;
      IdentifiersUnique(peers, byId.value, j);
    }
  }

  lemma DistinctAfter(peers: seq<Peer>, peers': seq<Peer>, q: Peer)
    requires StaticDistinct(peers) && forall x :: x in peers' ==> x in peers || x == q
    requires q.dynamic || forall x :: x in peers' && !x.dynamic && x.address == q.address ==> SameKey(x, q)
    ensures StaticDistinct(peers')
  {
  }

  lemma ReplaceDistinct(peers: seq<Peer>, i: nat, q: Peer)
    requires Sorted(peers) && StaticDistinct(peers) && i < |peers| && SameKey(peers[i], q)
    requires q.dynamic || (!peers[i].dynamic && q.address == peers[i].address)
    ensures StaticDistinct(peers[i := q])
  {
    forall x | x in peers[i := q] ensures x in peers || x == q { ReplaceMembers(peers, i, q, x); }
    assert peers[i] in peers;
    DistinctAfter(peers, peers[i := q], q);
  }

  lemma InsertDistinct(peers: seq<Peer>, q: Peer)
    requires StaticDistinct(peers) && (q.dynamic || forall x :: x in peers && !x.dynamic ==> x.address != q.address)
    ensures StaticDistinct(Insert(peers, q))
  {
    forall x | x in Insert(peers, q) ensures x in peers || x == q { InsertMembers(peers, q, x); }
    DistinctAfter(peers, Insert(peers, q), q);
  }

  /** When a static entry is taken out, no other static entry has its addresses. */
  lemma TakenOut(peers: seq<Peer>, i: nat)
    requires Sorted(peers) && StaticDistinct(peers) && i < |peers|
    ensures StaticDistinct(RemoveAt(peers, i))
    ensures !peers[i].dynamic ==> forall x :: x in RemoveAt(peers, i) && !x.dynamic ==> x.address != peers[i].address
  {
    assert peers[i] in peers;
    forall x | x in RemoveAt(peers, i) ensures x in peers && !SameKey(x, peers[i]) { RemoveMembers(peers, i, x); }
  }

  lemma UpdateStaticDistinct(r: Registrar, i: nat, id: nat)
    requires Sorted(r.peers) && StaticDistinct(r.peers) && i < |r.peers| && !r.peers[i].dynamic
    ensures StaticDistinct(UpdateStatic(r, i, id).0.peers)
  {
    var p, h := r.peers[i], r.handlespace;
    if IsOwnId(h, id) {
      ReplaceDistinct(r.peers, i, p.(isNew := p.isNew || p.id == UNDEFINED, checksum := OwnershipChecksum(h, p.id)));
    } else {
      var q := p.(id := id, isNew := p.id == UNDEFINED, checksum := OwnershipChecksum(h, id));
      if p.id == id {
        ReplaceDistinct(r.peers, i, q);
      } else {
        TakenOut(r.peers, i);
        InsertDistinct(RemoveAt(r.peers, i), q);
      }
    }
  }

  lemma AddOrUpdateDistinct(r: Registrar, id: nat, dynamic: bool, address: Address, now: nat)
    requires Inv(r) && StaticDistinct(r.peers) && dynamic == (id != UNDEFINED)
    requires dynamic ==> forall p :: p in r.peers && p.id == id ==> p.dynamic
    requires !dynamic ==> StaticIsFree(r.peers, address)
    ensures StaticDistinct(AddOrUpdate(r, id, dynamic, address, now).0.peers)
  {
    var p, h, peers := FreshPeer(id, dynamic, address), r.handlespace, r.peers;
    if IsOwnId(h, id) {
    } else if Present(peers, p) {
      var i := Position(peers, p);
      assert peers[i] in peers && Good(h, peers[i]);
      ReplaceDistinct(peers, i, peers[i].(dynamic := dynamic, isNew := false, address := address, updated := now,
                                          checksum := OwnershipChecksum(h, id)));
    } else {
      PresentIff(peers, p);
      InsertDistinct(peers, p.(isNew := true, updated := now, checksum := OwnershipChecksum(h, id)));
    }
  }

  lemma RegisterPeerDistinct(r: Registrar, id: nat, dynamic: bool, address: Address, now: nat)
    requires Inv(r) && StaticDistinct(r.peers) && (!dynamic && id == UNDEFINED ==> StaticIsFree(r.peers, address))
    ensures StaticDistinct(RegisterPeer(r, id, dynamic, address, now).0.peers)
  {
    if dynamic != (id == UNDEFINED) {
      var known := Known(r.peers, id, address);
      if dynamic && known.Some? && !r.peers[known.value].dynamic {
        UpdateStaticDistinct(r, known.value, id);
      } else {
        if dynamic { OthersDynamic(r.peers, id, address); }
        AddOrUpdateDistinct(r, id, dynamic, address, now);
      }
    }
  }

  /** As long as static addresses are distinct, every deregistration passes its check. */
  lemma DeregisterDistinct(r: Registrar, i: nat)
    requires Inv(r) && StaticDistinct(r.peers) && i < |r.peers|
    ensures DeregisterCheck(r.peers, i) && StaticDistinct(DeregisterPeer(r.peers, i))
  {
    var rest, p := RemoveAt(r.peers, i), r.peers[i];
    TakenOut(r.peers, i);
    RemoveKeeps(r.handlespace, r.peers, i);
    if IsDemoted(p) {
      PresentIff(rest, Demoted(p));
      forall x | x in rest ensures !SameKey(x, Demoted(p)) { assert Good(r.handlespace, x); }
      InsertDistinct(rest, Demoted(p));
    }
  }

  lemma ChangedDistinct(r: Registrar, c: (Handlespace, Notification))
    requires Sorted(r.peers) && StaticDistinct(r.peers) && Defined(c.1)
    ensures StaticDistinct(Changed(r, c).peers)
  {
    NotifyEffect(r.peers, c.1);
    hide Notify, Adjusted, Sorted, StaticDistinct;
    DistinctKept(r.peers, Notify(r.peers, c.1));
  }

  lemma StepDistinct(r: Registrar, e: Event)
    requires Inv(r) && StaticDistinct(r.peers) && Legal(r, e)
    ensures Survivable(r, e) && StaticDistinct(Apply(r, e).peers)
  {
    var h := r.handlespace;
    match e
    case PeerRegistered(id, dynamic, address, now) => RegisterPeerDistinct(r, id, dynamic, address, now);
    case PeerDeregistered(i) => if i < |r.peers| { DeregisterDistinct(r, i); }
    case TimerRestarted(i, deadline) =>
      if i < |r.peers| { ReplaceDistinct(r.peers, i, r.peers[i].(timer := Some(deadline))); }
    case ElementsMarked(_) =>
    case ElementRegistered(k, home, accepted) =>
      if IsAccepted(k, accepted) {
        RegisterFacts(h, k, home);
        ChangedDistinct(r, H.Register(h, k, home));
      }
    case ElementRemoved(k) => if k in h.elements { ChangedDistinct(r, H.Remove(h, k)); }
    case OwnershipChanged(k, home) => if k in h.elements { ChangedDistinct(r, H.UpdateOwnership(h, k, home)); }
  }

  /** If no static address is registered again while its entry carries an identifier, no
      check fails at all. */
  lemma {:induction false} LegalRunSurvives(r: Registrar, events: seq<Event>)
    requires Inv(r) && StaticDistinct(r.peers) && LegalRun(r, events)
    ensures Survives(r, events) && StaticDistinct(Run(r, events).peers)
    decreases |events|
  {
    if events != [] {
      StepDistinct(r, events[0]);
      StepKeepsInv(r, events[0]);
      LegalRunSurvives(Apply(r, events[0]), events[1..]);
    }
  }

  lemma NoCheckFails(own: nat, bigEndian: bool, events: seq<Event>)
    requires LegalRun(Initial(own, bigEndian), events)
    ensures Survives(Initial(own, bigEndian), events) && RunChecksHold(Initial(own, bigEndian), events)
  {
    LegalRunSurvives(Initial(own, bigEndian), events);
    RunKeepsInv(Initial(own, bigEndian), events);
  }

  // ---- The check in the deregistration ----------------------------------------------------------------------------

  /** The check fails if and only if another entry without identifier has the addresses. */
  lemma DeregisterCheckIff(peers: seq<Peer>, i: nat)
    requires Sorted(peers) && i < |peers|
    ensures DeregisterCheck(peers, i) <==>
              !(IsDemoted(peers[i]) && exists x :: x in peers && x.id == UNDEFINED && x.address == peers[i].address)
  {
    var rest, q := RemoveAt(peers, i), Demoted(peers[i]);
    RemoveSorted(peers, i);
    PresentIff(rest, q);
    if IsDemoted(peers[i]) {
      forall x | x in peers && x.id == UNDEFINED ensures x in rest { RemoveMembers(peers, i, x); }
      forall x | x in rest ensures x in peers { RemoveMembers(peers, i, x); }
    }
  }

  /** A static registration keeps every later deregistration safe exactly if the address
      is not that of a static entry that carries an identifier. */
  lemma StaticRegistrationIff(r: Registrar, address: Address, now: nat)
    requires Inv(r) && StaticDistinct(r.peers)
    ensures var peers' := RegisterPeer(r, UNDEFINED, false, address, now).0.peers;
      (forall i :: 0 <= i < |peers'| ==> DeregisterCheck(peers', i)) <==> StaticIsFree(r.peers, address)
  {
    var r' := RegisterPeer(r, UNDEFINED, false, address, now).0;
    if StaticIsFree(r.peers, address) {
      RegisterPeerKeeps(r, UNDEFINED, false, address, now);
      RegisterPeerDistinct(r, UNDEFINED, false, address, now);
      forall i | 0 <= i < |r'.peers| ensures DeregisterCheck(r'.peers, i) { DeregisterDistinct(r', i); }
    } else {
      var p :| p in r.peers && IsDemoted(p) && p.address == address;
      SecondEntry(r, p, address, now);
    }
  }

  lemma SecondEntry(r: Registrar, p: Peer, address: Address, now: nat)
    requires Inv(r) && StaticDistinct(r.peers) && p in r.peers && IsDemoted(p) && p.address == address
    ensures var peers' := RegisterPeer(r, UNDEFINED, false, address, now).0.peers;
      exists i :: 0 <= i < |peers'| && !DeregisterCheck(peers', i)
  {
    var plain := FreshPeer(UNDEFINED, false, address);
    var q := plain.(isNew := true, updated := now, checksum := OwnershipChecksum(r.handlespace, UNDEFINED));
    PresentIff(r.peers, plain);
    PresentIff(r.peers, q);
    forall x | x in r.peers ensures !SameKey(x, plain) {
      assert Good(r.handlespace, x);
    }
    var peers' := Insert(r.peers, q);
    assert RegisterPeer(r, UNDEFINED, false, address, now).0.peers == peers';
    InsertSorted(r.peers, q);
    InsertMembers(r.peers, q, p);
    InsertMembers(r.peers, q, q);
    var i :| 0 <= i < |peers'| && peers'[i] == p;
    DeregisterCheckIff(peers', i);
  }

  lemma StaticAdded(r: Registrar, address: Address, now: nat)
    requires r.peers == [] && HomesDefined(r.handlespace)
    ensures Apply(r, PeerRegistered(UNDEFINED, false, address, now)) ==
              r.(peers := [Peer(UNDEFINED, false, true, address, 0, now, None)])
  {
    NothingUndefined(r.handlespace);
  }

  lemma StaticIdentified(r: Registrar, id: nat, address: Address, now: nat)
    requires |r.peers| == 1 && r.peers[0].id == UNDEFINED && !r.peers[0].dynamic && r.peers[0].address == address
    requires id != UNDEFINED && id != r.handlespace.own
    ensures var peers' := Apply(r, PeerRegistered(id, true, address, now)).peers;
      |peers'| == 1 && IsDemoted(peers'[0]) && peers'[0].address == address
  {
    SelfOverlap(address);
    assert RemoveAt(r.peers, 0) == [];
  }

  lemma FourthFails(r: Registrar, a: Event, b: Event, c: Event, d: Event)
    requires !ChecksHold(Apply(Apply(Apply(r, a), b), c), d)
    ensures !RunChecksHold(r, [a, b, c, d])
  {
    hide Apply, ChecksHold;
    assert [a, b, c, d][1..] == [b, c, d] && [b, c, d][1..] == [c, d] && [c, d][1..] == [d];
    var r3 := Apply(Apply(Apply(r, a), b), c);
    assert !RunChecksHold(r3, [d]);
    assert !RunChecksHold(Apply(Apply(r, a), b), [c, d]);
    assert !RunChecksHold(Apply(r, a), [b, c, d]);
  }

  /** The check can fail: a static address is registered, its registrar becomes known, the
      address is registered once more, and then the registrar is deregistered. */
  lemma CheckCanFail(address: Address) returns (events: seq<Event>)
    ensures !RunChecksHold(Initial(1, false), events)
  {
    var r0 := Initial(1, false);
    var a, b, c := PeerRegistered(UNDEFINED, false, address, 0), PeerRegistered(5, true, address, 1), PeerRegistered(UNDEFINED, false, address, 2);
    StaticAdded(r0, address, 0);
    var r1 := Apply(r0, a);
    StepKeepsInv(r0, a);
    assert r1.handlespace == r0.handlespace;
    StepDistinct(r0, a);
    hide Apply, Inv, RunChecksHold, Initial, StaticDistinct;
    StaticIdentified(r1, 5, address, 1);
    StepDistinct(r1, b);
    StepKeepsInv(r1, b);
    var r2 := Apply(r1, b);
    var d := FailingDeregistration(r2, address, 2);
    FourthFails(r0, a, b, c, d);
    events := [a, b, c, d];
  }

  lemma FailingDeregistration(r: Registrar, address: Address, now: nat) returns (e: Event)
    requires Inv(r) && StaticDistinct(r.peers) && |r.peers| == 1 && IsDemoted(r.peers[0]) && r.peers[0].address == address
    ensures !ChecksHold(Apply(r, PeerRegistered(UNDEFINED, false, address, now)), e)
  {
    SecondEntry(r, r.peers[0], address, now);
    var r' := Apply(r, PeerRegistered(UNDEFINED, false, address, now));
    var i :| 0 <= i < |r'.peers| && !DeregisterCheck(r'.peers, i);
    e := PeerDeregistered(i);
  }

  lemma SelfOverlap(address: Address)
    ensures Overlap(address, address)
  {
    if address.hosts != [] { assert address.hosts[0] in address.hosts; }
  }

  // ---- What events do to an element -----------------------------------------------------------------

  ghost predicate SameEntry(s: Entries, s': Entries, k: Element) {
    (k in s <==> k in s') && (k in s ==> s'[k] == s[k])
  }

  /** An accepted registration stores the element with its home, unmarked; a removal takes it
      out; a takeover changes its home; marking marks what the search finds; and nothing else
      happens to any element. */
  lemma ElementAfter(r: Registrar, e: Event, k: Element)
    requires Inv(r)
    ensures var s, s' := r.handlespace.elements, Apply(r, e).handlespace.elements;
      match e
      case ElementRegistered(key, home, accepted) =>
        if k == key && accepted && 1 <= |k.handle| <= 32 && |k.identifier| == 4
        then k in s' && s'[k].home == home && !s'[k].marked && s'[k].checksum == Checksum(k, r.handlespace.bigEndian)
        else SameEntry(s, s', k)
      case ElementRemoved(key) => if k == key then k !in s' else SameEntry(s, s', k)
      case OwnershipChanged(key, home) =>
        if k == key && k in s then k in s' && s'[k] == s[k].(home := home) else SameEntry(s, s', k)
      case ElementsMarked(owner) =>
        if k in s && s[k].home == owner && !Missed(s, owner) then k in s' && s'[k] == s[k].(marked := true)
        else SameEntry(s, s', k)
      case _ => s' == s
  {
    hide OwnershipChecksum, Checksum, Notify, DeregisterPeer;
  }
}
