/**
 Synchronising the elements of one peer: they are marked, the peer's handle table comes
 in and registers what the peer really owns, and what is still marked is purged.
 */
module Resynchronisation {
  import opened HandlespaceChecksum
  import opened H = HandlespaceModel
  import opened PeerList
  import opened R = RegistrarModel

  // ---- What may happen meanwhile -------------------------------------------------------------------

  /** Anything may happen between marking and purging, except that the peer's elements are
      marked once more: a synchronisation is not started while one is going on. */
  predicate Undisturbing(e: Event, peer: nat) { !(e.ElementsMarked? && e.owner == peer) }

  predicate IsRegistration(e: Event, k: Element) {
    e.ElementRegistered? && e.key == k && IsAccepted(k, e.accepted)
  }

  predicate Touches(e: Event, k: Element) {
    IsRegistration(e, k) || (e.ElementRemoved? && e.key == k) || (e.OwnershipChanged? && e.key == k)
  }

  predicate Untouched(events: seq<Event>, k: Element) { forall e :: e in events ==> !Touches(e, k) }

  /** The element changes hands to the peer, as in a takeover, without being registered. */
  predicate IsTakeover(r: Registrar, e: Event, k: Element, peer: nat) {
    e.OwnershipChanged? && e.key == k && e.home == peer && k in r.handlespace.elements
  }

  /** The last event about an element was its registration as the peer's, or a takeover by
      the peer while the element had no mark. */
  ghost predicate Settled(r: Registrar, events: seq<Event>, k: Element, peer: nat)
    decreases |events|
  {
    events != [] &&
    var e, rest := events[0], events[1..];
    || Settled(Apply(r, e), rest, k, peer)
    || (&& Untouched(rest, k)
        && (|| (IsRegistration(e, k) && e.home == peer)
            || (IsTakeover(r, e, k, peer) && !r.handlespace.elements[k].marked)))
  }

  /** The last event about an element was a takeover by the peer while it had a mark. */
  ghost predicate TakenMarked(r: Registrar, events: seq<Event>, k: Element, peer: nat)
    decreases |events|
  {
    events != [] &&
    var e, rest := events[0], events[1..];
    || TakenMarked(Apply(r, e), rest, k, peer)
    || (Untouched(rest, k) && IsTakeover(r, e, k, peer) && r.handlespace.elements[k].marked)
  }

  /** The element is the peer's and has been confirmed. */
  predicate Confirmed(h: Handlespace, k: Element, peer: nat) {
    k in h.elements && h.elements[k].home == peer && !h.elements[k].marked
  }

  predicate IsDoomed(h: Handlespace, k: Element, peer: nat) {
    k in h.elements && h.elements[k].home == peer && h.elements[k].marked
  }

  // ---- Until the last response ------------------------------------------------------------------------

  lemma StepConfirms(r: Registrar, e: Event, k: Element, peer: nat)
    requires Undisturbing(e, peer)
    ensures Confirmed(Apply(r, e).handlespace, k, peer) <==>
              if Touches(e, k)
              then (IsRegistration(e, k) && e.home == peer) || (IsTakeover(r, e, k, peer) && !r.handlespace.elements[k].marked)
              else Confirmed(r.handlespace, k, peer)
    ensures IsDoomed(Apply(r, e).handlespace, k, peer) <==>
              if Touches(e, k) then IsTakeover(r, e, k, peer) && r.handlespace.elements[k].marked
              else IsDoomed(r.handlespace, k, peer)
  {
  }

  lemma {:induction false} RunConfirms(r: Registrar, events: seq<Event>, k: Element, peer: nat)
    requires forall e :: e in events ==> Undisturbing(e, peer)
    ensures Confirmed(Run(r, events).handlespace, k, peer) <==>
              Settled(r, events, k, peer) || (Untouched(events, k) && Confirmed(r.handlespace, k, peer))
    ensures IsDoomed(Run(r, events).handlespace, k, peer) <==>
              TakenMarked(r, events, k, peer) || (Untouched(events, k) && IsDoomed(r.handlespace, k, peer))
    ensures Settled(r, events, k, peer) || TakenMarked(r, events, k, peer) ==> !Untouched(events, k)
    decreases |events|
  {
    if events != [] {
      var e, rest := events[0], events[1..];
      assert e in events && events == [e] + rest;
      StepConfirms(r, e, k, peer);
      RunConfirms(Apply(r, e), rest, k, peer);
      assert Untouched(events, k) <==> !Touches(e, k) && Untouched(rest, k);
    }
  }

  // ---- The purge ----------------------------------------------------------------------------------------

  /** The removals that purge the given elements, in the given order. */
  function Removals(order: seq<Element>): (es: seq<Event>)
    ensures forall e :: e in es ==> e.ElementRemoved?
  {
    if order == [] then [] else [ElementRemoved(order[0])] + Removals(order[1..])
  }

  lemma {:induction false} RunRemovals(r: Registrar, order: seq<Element>, k: Element)
    ensures var s, t := r.handlespace.elements, Run(r, Removals(order)).handlespace.elements;
      && (k in t <==> k in s && k !in order)
      && (k in t ==> t[k] == s[k])
    decreases |order|
  {
    if order != [] {
      var e := ElementRemoved(order[0]);
      assert Removals(order)[0] == e && Removals(order)[1..] == Removals(order[1..]);
      RunRemovals(Apply(r, e), order[1..], k);
      assert k in order <==> k == order[0] || k in order[1..];
    }
  }

  // ---- The whole synchronisation ----------------------------------------------------------------------------

  ghost function AfterResponses(r: Registrar, events: seq<Event>, peer: nat): Registrar {
    Run(Apply(r, ElementsMarked(peer)), events)
  }

  ghost function Synchronised(r: Registrar, events: seq<Event>, order: seq<Element>, peer: nat): Registrar {
    Run(AfterResponses(r, events, peer), Removals(order))
  }

  /** The purge meets exactly the elements that are found and still marked. */
  ghost predicate IsPurge(r: Registrar, order: seq<Element>, peer: nat) {
    forall k :: k in order <==> IsDoomed(r.handlespace, k, peer) && !Missed(r.handlespace.elements, peer)
  }

  /** The one element that a search can miss is overlooked: nothing was heard of it, and
      either the marking missed it while it had no mark, or the purge misses it. */
  ghost predicate Overlooked(r: Registrar, events: seq<Event>, peer: nat) {
    && Untouched(events, UNSEEN)
    && (|| (Missed(r.handlespace.elements, peer) && !r.handlespace.elements[UNSEEN].marked)
        || Missed(AfterResponses(r, events, peer).handlespace.elements, peer))
  }

  /** What the marking leaves unmarked. */
  lemma MarkConfirms(r: Registrar, k: Element, peer: nat)
    ensures var h := r.handlespace;
      Confirmed(Apply(r, ElementsMarked(peer)).handlespace, k, peer) <==>
        k == UNSEEN && Missed(h.elements, peer) && !h.elements[UNSEEN].marked
  {
  }

  /** According to the last event about it, an element is the peer's. */
  ghost predicate Belongs(r: Registrar, events: seq<Event>, k: Element, peer: nat) {
    var r1 := Apply(r, ElementsMarked(peer));
    Settled(r1, events, k, peer) || TakenMarked(r1, events, k, peer)
  }

  /** An element that was taken over with a mark is purged, unless the purge misses it. */
  ghost predicate Lost(r: Registrar, events: seq<Event>, k: Element, peer: nat) {
    && TakenMarked(Apply(r, ElementsMarked(peer)), events, k, peer)
    && !Missed(AfterResponses(r, events, peer).handlespace.elements, peer)
  }

  /** Resynchronisation: afterwards the peer owns exactly the elements that are the peer's by
      the last event about them, whatever was known or marked before, without those that
      were taken over with a mark, and besides them only the element that is overlooked.
      The elements of other registrars are not affected by the purge. */
  lemma Resynchronise(r: Registrar, events: seq<Event>, order: seq<Element>, peer: nat, k: Element)
    requires forall e :: e in events ==> Undisturbing(e, peer)
    requires IsPurge(AfterResponses(r, events, peer), order, peer)
    ensures var s, t := AfterResponses(r, events, peer).handlespace.elements, Synchronised(r, events, order, peer).handlespace.elements;
      && (IsOwned(t, k, peer) <==>
            (Belongs(r, events, k, peer) && !Lost(r, events, k, peer)) || (k == UNSEEN && Overlooked(r, events, peer)))
      && (k in s && s[k].home != peer ==> k in t && t[k] == s[k])
      && (k in t ==> k in s && t[k] == s[k])
      && (Lost(r, events, k, peer) ==> Belongs(r, events, k, peer) && !(k == UNSEEN && Overlooked(r, events, peer)))
      && (k == UNSEEN && Overlooked(r, events, peer) ==> !Belongs(r, events, k, peer))
  {
    var r1, r2 := Apply(r, ElementsMarked(peer)), AfterResponses(r, events, peer);
    MarkConfirms(r, k, peer);
    RunConfirms(r1, events, k, peer);
    RunRemovals(r2, order, k);
    NeverBoth(r1, events, k, peer);
    hide Apply, Run, Settled, TakenMarked, Removals, Touches;
    assert IsOwned(r2.handlespace.elements, k, peer) <==> Confirmed(r2.handlespace, k, peer) || IsDoomed(r2.handlespace, k, peer);
  }

  lemma NeverBoth(r: Registrar, events: seq<Event>, k: Element, peer: nat)
    requires forall e :: e in events ==> Undisturbing(e, peer)
    ensures !(Settled(r, events, k, peer) && TakenMarked(r, events, k, peer))
  {
    RunConfirms(r, events, k, peer);
  }

  /** It is exact for all elements if and only if none is overlooked and none is lost. */
  lemma ResynchroniseIff(r: Registrar, events: seq<Event>, order: seq<Element>, peer: nat)
    requires forall e :: e in events ==> Undisturbing(e, peer)
    requires IsPurge(AfterResponses(r, events, peer), order, peer)
    ensures (forall k :: IsOwned(Synchronised(r, events, order, peer).handlespace.elements, k, peer) <==> Belongs(r, events, k, peer)) <==>
            !Overlooked(r, events, peer) && forall k :: !Lost(r, events, k, peer)
  {
    var t := Synchronised(r, events, order, peer).handlespace.elements;
    hide Synchronised, Belongs, Lost, Overlooked, IsOwned;
    Resynchronise(r, events, order, peer, UNSEEN);
    if !Overlooked(r, events, peer) && forall k :: !Lost(r, events, k, peer) {
      forall k ensures IsOwned(t, k, peer) <==> Belongs(r, events, k, peer) { Resynchronise(r, events, order, peer, k); }
    } else if k :| Lost(r, events, k, peer) {
      Resynchronise(r, events, order, peer, k);
      assert !(IsOwned(t, k, peer) <==> Belongs(r, events, k, peer));
    } else {
      assert !(IsOwned(t, UNSEEN, peer) <==> Belongs(r, events, UNSEEN, peer));
    }
  }

  lemma RunTwo(r: Registrar, a: Event, b: Event)
    ensures Run(r, [a, b]) == Apply(Apply(r, a), b)
  {
    hide Apply;
    assert [a, b][1..] == [b] && [b][1..] == [];
    assert Run(Apply(Apply(r, a), b), []) == Apply(Apply(r, a), b);
  }

  lemma RunSingle(r: Registrar, e: Event)
    ensures Run(r, [e]) == Apply(r, e)
  {
    hide Apply;
    assert [e][1..] == [];
    assert Run(Apply(r, e), []) == Apply(r, e);
  }

  /** A marked element of registrar 3 is taken over by registrar 2 during its synchronisation. */
  lemma TakenOver(r: Registrar, k: Element)
    requires k != UNSEEN && r.handlespace.elements.Keys == {k}
    requires r.handlespace.elements[k].home == 3 && r.handlespace.elements[k].marked
    ensures var e, r2 := OwnershipChanged(k, 2), AfterResponses(r, [OwnershipChanged(k, 2)], 2);
      && r2.handlespace.elements.Keys == {k} && IsDoomed(r2.handlespace, k, 2)
      && TakenMarked(Apply(r, ElementsMarked(2)), [e], k, 2)
  {
    var e, r1 := OwnershipChanged(k, 2), Apply(r, ElementsMarked(2));
    RunSingle(r1, e);
    assert [e][1..] == [];
    assert r1.handlespace.elements == r.handlespace.elements;
    hide Notify;
  }

  /** An element can be lost: registrar 3 is being synchronised too, its element is marked,
      and registrar 2 takes it over while registrar 2 is being synchronised. */
  lemma TakenOverAndPurged(k: Element)
    requires ValidElement(k) && k != UNSEEN
    ensures var r := Run(Initial(1, false), [ElementRegistered(k, 3, true), ElementsMarked(3)]);
      var events := [OwnershipChanged(k, 2)];
      && IsPurge(AfterResponses(r, events, 2), [k], 2)
      && Belongs(r, events, k, 2) && Lost(r, events, k, 2)
      && k !in Synchronised(r, events, [k], 2).handlespace.elements
  {
    var r := Run(Initial(1, false), [ElementRegistered(k, 3, true), ElementsMarked(3)]);
    RunTwo(Initial(1, false), ElementRegistered(k, 3, true), ElementsMarked(3));
    assert r.handlespace.elements.Keys == {k} && r.handlespace.elements[k].home == 3 && r.handlespace.elements[k].marked;
    hide Apply, Run, Initial, TakenMarked, Settled;
    TakenOver(r, k);
    RunRemovals(AfterResponses(r, [OwnershipChanged(k, 2)], 2), [k], k);
  }

  /** It can be overlooked: the peer with the largest identifier owned just this element,
      has it no longer, and no response mentions it; yet it stays. */
  lemma UnseenElementStays()
    ensures var r := Apply(Initial(1, false), ElementRegistered(UNSEEN, 2, true));
      && IsPurge(AfterResponses(r, [], 2), [], 2)
      && Overlooked(r, [], 2)
      && IsOwned(Synchronised(r, [], [], 2).handlespace.elements, UNSEEN, 2)
  {
    var r := Apply(Initial(1, false), ElementRegistered(UNSEEN, 2, true));
    assert r.handlespace.elements.Keys == {UNSEEN};
    assert Missed(r.handlespace.elements, 2);
    assert AfterResponses(r, [], 2).handlespace.elements == r.handlespace.elements;
    assert Removals([]) == [];
  }

  // ---- The checksum -------------------------------------------------------------------------------------------

  lemma KeepsInv(r: Registrar, events: seq<Event>, order: seq<Element>, peer: nat)
    requires R.Inv(r) && Survives(Apply(r, ElementsMarked(peer)), events)
    ensures var r' := Synchronised(r, events, order, peer);
      R.Inv(r') && r'.handlespace.bigEndian == r.handlespace.bigEndian
  {
    var r1, r2 := Apply(r, ElementsMarked(peer)), AfterResponses(r, events, peer);
    StepKeepsInv(r, ElementsMarked(peer));
    RunKeepsInv(r1, events);
    RemovalsSurvive(r2, Removals(order));
    RunKeepsInv(r2, Removals(order));
    OwnKept(r1, events);
    OwnKept(r2, Removals(order));
  }

  lemma StoredExactly(h: Handlespace, home: nat)
    requires H.Inv(h) && AllValid(h.elements)
    ensures ExactSums(h.elements, home, h.bigEndian)
  {
    forall k | k in h.elements ensures h.elements[k].checksum == ElementSum(k, h.bigEndian) {
      ElementSumBound(k, h.bigEndian);
    }
  }

  lemma SameAccumulator(h: Handlespace, theirs: Handlespace)
    requires H.Inv(h) && AllValid(h.elements) && H.Inv(theirs) && AllValid(theirs.elements) && SameOwned(h.elements, theirs.elements, theirs.own)
    requires h.bigEndian == theirs.bigEndian
    ensures OwnershipChecksum(h, theirs.own) == theirs.ownedTotal
  {
    StoredExactly(h, theirs.own);
    StoredExactly(theirs, theirs.own);
    SameOrderSums(h.elements, theirs.elements, theirs.own, h.bigEndian);
  }

  lemma SameBytes(h: Handlespace, theirs: Handlespace)
    requires H.Inv(h) && AllValid(h.elements) && H.Inv(theirs) && AllValid(theirs.elements)
    requires SameOwned(h.elements, theirs.elements, theirs.own) && theirs.owned <= 3640
    ensures OnTheWire(OwnershipChecksum(h, theirs.own), h.bigEndian) == OnTheWire(theirs.ownedTotal, theirs.bigEndian)
  {
    StoredExactly(h, theirs.own);
    StoredExactly(theirs, theirs.own);
    hide OnTheWire, Sum, ExactSums, SameOwned, AllValid;
    FewAgree(h.elements, theirs.elements, theirs.own, h.bigEndian, theirs.bigEndian);
  }

  /** The stored checksum of the peer is the one that the peer itself has: the same
      accumulator on a machine of the same byte order; the same two bytes on the wire on
      any machine, as long as the peer's elements cannot make the accumulator wrap around. */
  ghost predicate Agrees(r: Registrar, theirs: Handlespace) {
    forall p :: p in r.peers && p.id == theirs.own ==>
      && (r.handlespace.bigEndian == theirs.bigEndian ==> p.checksum == theirs.ownedTotal)
      && (theirs.owned <= 3640 ==>
            OnTheWire(p.checksum, r.handlespace.bigEndian) == OnTheWire(theirs.ownedTotal, theirs.bigEndian))
  }

  lemma SameOwnedAgrees(r: Registrar, theirs: Handlespace)
    requires R.Inv(r) && H.Inv(theirs) && AllValid(theirs.elements) && SameOwned(r.handlespace.elements, theirs.elements, theirs.own)
    ensures Agrees(r, theirs)
  {
    hide OnTheWire, OwnershipChecksum, H.Inv, AllValid, SameOwned;
    if r.handlespace.bigEndian == theirs.bigEndian { SameAccumulator(r.handlespace, theirs); }
    if theirs.owned <= 3640 { SameBytes(r.handlespace, theirs); }
    forall p | p in r.peers && p.id == theirs.own ensures p.checksum == OwnershipChecksum(r.handlespace, theirs.own) {
      assert Good(r.handlespace, p);
    }
  }

  /** If the events tell of what the peer owns, and nothing of it is lost, then the stored
      checksum of the peer is the peer's own, and no further synchronisation is asked for. */
  lemma ChecksumsMatch(r: Registrar, events: seq<Event>, order: seq<Element>, theirs: Handlespace)
    requires R.Inv(r) && Survives(Apply(r, ElementsMarked(theirs.own)), events)
    requires forall e :: e in events ==> Undisturbing(e, theirs.own)
    requires IsPurge(AfterResponses(r, events, theirs.own), order, theirs.own)
    requires H.Inv(theirs) && AllValid(theirs.elements)
    requires forall k :: Belongs(r, events, k, theirs.own) <==> IsOwned(theirs.elements, k, theirs.own)
    ensures R.Inv(Synchronised(r, events, order, theirs.own))
    ensures (forall k :: !Lost(r, events, k, theirs.own)) ==> Agrees(Synchronised(r, events, order, theirs.own), theirs)
  {
    var peer := theirs.own;
    var r' := Synchronised(r, events, order, peer);
    KeepsInv(r, events, order, peer);
    hide R.Inv, H.Inv, AllValid, Synchronised, AfterResponses, Agrees, IsPurge, Undisturbing, Survives, Belongs, Lost, Overlooked;
    if forall k :: !Lost(r, events, k, peer) {
      forall k | k != UNSEEN ensures IsOwned(r'.handlespace.elements, k, peer) <==> IsOwned(theirs.elements, k, peer) {
        Resynchronise(r, events, order, peer, k);
      }
      SameOwnedAgrees(r', theirs);
    }
  }

  lemma {:induction false} RemovalsSurvive(r: Registrar, events: seq<Event>)
    requires forall e :: e in events ==> e.ElementRemoved?
    ensures Survives(r, events)
    decreases |events|
  {
    if events != [] {
      assert events[0] in events;
      RemovalsSurvive(Apply(r, events[0]), events[1..]);
    }
  }
}
