/**
 The tables of a registrar as they are changed in place: the handlespace with its
 checksums, and the peer list that is notified of every change.
 */
module RegistrarTables {
  import opened Wrappers
  import opened HandlespaceChecksum
  import opened H = HandlespaceModel
  import opened PeerList
  import opened R = RegistrarModel
  import opened Resynchronisation

  // ---- Runs that grow at the end -------------------------------------------------------------------------

  lemma {:induction false} RunSnoc(r: Registrar, order: seq<Element>, k: Element)
    ensures Run(r, Removals(order + [k])) == Apply(Run(r, Removals(order)), ElementRemoved(k))
    decreases |order|
  {
    if order == [] {
      assert order + [k] == [k] && [k][1..] == [];
      assert Removals([k]) == [ElementRemoved(k)] + [];
      assert Removals([k])[0] == ElementRemoved(k) && Removals([k])[1..] == [];
    } else {
      var e, rest := ElementRemoved(order[0]), order[1..];
      assert (order + [k])[0] == order[0] && (order + [k])[1..] == rest + [k];
      RunSnoc(Apply(r, e), rest, k);
      RunCons(r, e, Removals(rest));
      RunCons(r, e, Removals(rest + [k]));
    }
  }

  lemma RunCons(r: Registrar, e: Event, rest: seq<Event>)
    ensures Run(r, [e] + rest) == Run(Apply(r, e), rest)
  {
    assert ([e] + rest)[1..] == rest;
  }

  // ---- Expiry --------------------------------------------------------------------------------------------------

  function ExpiredCount(peers: seq<Peer>, now: nat): nat {
    if peers == [] then 0 else (if IsExpired(peers[0], now) then 1 else 0) + ExpiredCount(peers[1..], now)
  }

  lemma {:induction false} CountConcat(a: seq<Peer>, b: seq<Peer>, now: nat)
    ensures ExpiredCount(a + b, now) == ExpiredCount(a, now) + ExpiredCount(b, now)
  {
    if a == [] {
      assert a + b == b;
    } else {
      assert (a + b)[1..] == a[1..] + b;
      CountConcat(a[1..], b, now);
    }
  }

  lemma CountOne(p: Peer, now: nat)
    ensures ExpiredCount([p], now) == if IsExpired(p, now) then 1 else 0
  {
    assert [p][1..] == [];
  }

  lemma CountDeregister(peers: seq<Peer>, i: nat, now: nat)
    requires i < |peers| && IsExpired(peers[i], now)
    ensures ExpiredCount(DeregisterPeer(peers, i), now) + 1 == ExpiredCount(peers, now)
  {
    var a, b, rest := peers[..i], peers[i + 1..], RemoveAt(peers, i);
    assert peers == a + ([peers[i]] + b);
    CountConcat(a, [peers[i]] + b, now);
    CountConcat([peers[i]], b, now);
    CountOne(peers[i], now);
    CountConcat(a, b, now);
    if IsDemoted(peers[i]) {
      var q := Demoted(peers[i]);
      var n := Position(rest, q);
      CountConcat(rest[..n] + [q], rest[n..], now);
      CountConcat(rest[..n], [q], now);
      CountOne(q, now);
      CountConcat(rest[..n], rest[n..], now);
      assert rest == rest[..n] + rest[n..];
    }
  }

  /** What is left when the timers have run out: entries that have not expired, and the
      static entries without the identifiers that they had. */
  ghost predicate Remains(peers: seq<Peer>, x: Peer, now: nat) {
    || (x in peers && !IsExpired(x, now))
    || (exists p :: p in peers && IsExpired(p, now) && IsDemoted(p) && x == Demoted(p))
  }

  ghost predicate SameRemains(a: seq<Peer>, b: seq<Peer>, now: nat) {
    forall x :: Remains(a, x, now) <==> Remains(b, x, now)
  }

  lemma DeregisterMembers(peers: seq<Peer>, i: nat, x: Peer)
    requires Sorted(peers) && i < |peers|
    ensures x in DeregisterPeer(peers, i) <==> (x in peers && x != peers[i]) || (IsDemoted(peers[i]) && x == Demoted(peers[i]))
  {
    RemoveMembers(peers, i, x);
    if IsDemoted(peers[i]) { InsertMembers(RemoveAt(peers, i), Demoted(peers[i]), x); }
    if x in peers && SameKey(x, peers[i]) {
      var j :| 0 <= j < |peers| && peers[j] == x;
      PeerOrder(x, peers[i], x);
      PeerOrder(peers[i], x, x);
    }
  }

  lemma RemainsKept(peers: seq<Peer>, i: nat, x: Peer, now: nat)
    requires Sorted(peers) && i < |peers| && IsExpired(peers[i], now)
    ensures Remains(DeregisterPeer(peers, i), x, now) <==> Remains(peers, x, now)
  {
    var peers' := DeregisterPeer(peers, i);
    DeregisterMembers(peers, i, x);
    forall p | IsExpired(p, now) ensures p in peers' <==> p in peers && p != peers[i] {
      DeregisterMembers(peers, i, p);
    }
    assert peers[i] in peers;
  }

  predicate AllOf(s: Entries, id: nat, bigEndian: bool) {
    forall k :: k in s ==> s[k].home == id && s[k].checksum == Checksum(k, bigEndian)
  }

  /** What is still to be added to get at the sum. */
  ghost predicate Missing(sum: Accumulator, rest: Entries, id: nat, goal: Accumulator) {
    (sum + Sum(rest, ChecksumsOf(id))) % ACCUMULATOR == goal
  }

  lemma TakeOne(s: Entries, id: nat, bigEndian: bool, k: Element, sum: Accumulator, goal: Accumulator)
    requires AllOf(s, id, bigEndian) && k in s && Missing(sum, s, id, goal)
    ensures AllOf(s - {k}, id, bigEndian)
    ensures Missing(Add(sum, Checksum(k, bigEndian)), s - {k}, id, goal)
  {
    SumRemove(s, ChecksumsOf(id), k);
    Regroup(sum, s[k].checksum, Sum(s - {k}, ChecksumsOf(id)));
  }

  lemma Regroup(sum: Accumulator, w: Accumulator, rest: nat)
    ensures (Add(sum, w) + rest) % ACCUMULATOR == (sum + (w + rest)) % ACCUMULATOR
  {
  }

  lemma NothingMissing(sum: Accumulator, id: nat, goal: Accumulator)
    ensures Missing(sum, map[], id, goal) <==> sum == goal
  {
  }

  method SumUp(s: Entries, id: nat, bigEndian: bool) returns (sum: Accumulator)
    requires AllOf(s, id, bigEndian)
    ensures sum == Sum(s, ChecksumsOf(id)) % ACCUMULATOR
  {
    ghost var goal := Sum(s, ChecksumsOf(id)) % ACCUMULATOR;
    sum := 0;
    var todo := s;
    assert Missing(sum, todo, id, goal);
    hide AllOf, Missing, Sum, Checksum, Add;
    while todo != map[]
      invariant AllOf(todo, id, bigEndian) && Missing(sum, todo, id, goal)
      decreases |todo|
    {
      var k :| k in todo;
      TakeOne(todo, id, bigEndian, k, sum, goal);
      sum := Add(sum, Checksum(k, bigEndian));
      todo := todo - {k};
    }
    NothingMissing(sum, id, goal);
  }

  // ---- The tables --------------------------------------------------------------------------------------------------

  class RegistrarTables {
    const own: nat
    const bigEndian: bool
    var elements: Entries
    var total: Accumulator
    var ownedTotal: Accumulator
    var owned: int
    var peers: seq<Peer>

    ghost function State(): Registrar
      reads this
    {
      Registrar(Handlespace(own, bigEndian, elements, total, ownedTotal, owned), peers)
    }

    constructor (own: nat, bigEndian: bool)
      ensures State() == Initial(own, bigEndian)
    {
      this.own, this.bigEndian := own, bigEndian;
      elements, total, ownedTotal, owned, peers := map[], 0, 0, 0, [];
    }

    // ---- Reading ----

    /** Sums up the checksums of a registrar's elements, in any order. */
    method ComputeOwnershipChecksum(id: nat) returns (sum: Accumulator)
      requires H.Inv(State().handlespace)
      ensures sum == OwnershipChecksum(State().handlespace, id)
    {
      FoundSum(State().handlespace, id);
      sum := SumUp(Found(elements, id), id, bigEndian);
    }

    /** The check that the code itself states: it always holds. */
    method VerifyChecksums() returns (ok: bool)
      requires R.Inv(State())
      ensures ok
    {
      ok := true;
      var i := 0;
      while i < |peers|
        invariant 0 <= i <= |peers| && ok
      {
        assert Good(State().handlespace, peers[i]) by { assert peers[i] in peers; }
        if peers[i].id != UNDEFINED {
          var sum := ComputeOwnershipChecksum(peers[i].id);
          ok := ok && peers[i].checksum == sum;
        }
        i := i + 1;
      }
    }

    method FindByAddress(address: Address) returns (r: Option<nat>)
      ensures r == FindOverlap(peers, address)
    {
      var i := 0;
      while i < |peers|
        invariant 0 <= i <= |peers|
        invariant forall j :: 0 <= j < i ==> !Overlap(peers[j].address, address)
      {
        if Overlap(peers[i].address, address) {
          return Some(i);
        }
        i := i + 1;
      }
      return None;
    }

    /** The entry whose timer runs out first. */
    method FirstTimer() returns (r: Option<nat>)
      ensures r.Some? ==> r.value < |peers| && peers[r.value].timer.Some?
      ensures r.Some? ==> forall p :: p in peers && p.timer.Some? ==> peers[r.value].timer.value <= p.timer.value
      ensures r.None? ==> forall p :: p in peers ==> p.timer.None?
    {
      r := None;
      var i := 0;
      while i < |peers|
        invariant 0 <= i <= |peers|
        invariant r.Some? ==> r.value < i && peers[r.value].timer.Some?
        invariant r.Some? ==> forall j :: 0 <= j < i && peers[j].timer.Some? ==> peers[r.value].timer.value <= peers[j].timer.value
        invariant r.None? ==> forall j :: 0 <= j < i ==> peers[j].timer.None?
      {
        if peers[i].timer.Some? && (r.None? || peers[i].timer.value < peers[r.value].timer.value) {
          r := Some(i);
        }
        i := i + 1;
      }
    }

    // ---- Peers ----

    /** A static entry gets to know its identifier, or is confirmed. */
    method UpdateStaticEntry(i: nat, id: nat) returns (error: Error)
      requires R.Inv(State()) && i < |peers|
      modifies this`peers
      ensures (State(), error) == UpdateStatic(old(State()), i, id)
    {
      var p := peers[i];
      if own != UNDEFINED && id == own {
        error := OwnId;
        var sum := ComputeOwnershipChecksum(p.id);
        peers := peers[i := p.(isNew := p.isNew || p.id == UNDEFINED, checksum := sum)];
      } else {
        error := Okay;
        var sum := ComputeOwnershipChecksum(id);
        var q := p.(id := id, isNew := p.id == UNDEFINED, checksum := sum);
        if p.id == id {
          peers := peers[i := q];
        } else {
          peers := Insert(RemoveAt(peers, i), q);
        }
      }
    }

    method AddOrUpdateEntry(id: nat, dynamic: bool, address: Address, now: nat) returns (error: Error)
      requires R.Inv(State())
      modifies this`peers
      ensures (State(), error) == AddOrUpdate(old(State()), id, dynamic, address, now)
    {
      if own != UNDEFINED && id == own { return OwnId; }
      error := Okay;
      var p := FreshPeer(id, dynamic, address);
      var sum := ComputeOwnershipChecksum(id);
      var i := Position(peers, p);
      if i < |peers| && SameKey(peers[i], p) {
        peers := peers[i := peers[i].(dynamic := dynamic, isNew := false, address := address, updated := now, checksum := sum)];
      } else {
        peers := Insert(peers, p.(isNew := true, updated := now, checksum := sum));
      }
    }

    method RegisterPeerListNode(id: nat, dynamic: bool, address: Address, now: nat) returns (error: Error)
      requires R.Inv(State())
      modifies this`peers
      ensures (State(), error) == RegisterPeer(old(State()), id, dynamic, address, now)
    {
      if dynamic {
        if id == UNDEFINED { return InvalidId; }
        var known := FindId(peers, id);
        if known.None? { known := FindByAddress(address); }
        if known.Some? && !peers[known.value].dynamic {
          error := UpdateStaticEntry(known.value, id);
          return;
        }
      } else if id != UNDEFINED {
        return InvalidId;
      }
      error := AddOrUpdateEntry(id, dynamic, address, now);
    }

    /** `check` is the check that the entry could be put back. */
    method DeregisterPeerListNode(i: nat) returns (check: bool)
      requires i < |peers|
      modifies this`peers
      ensures check == DeregisterCheck(old(peers), i)
      ensures check ==> peers == DeregisterPeer(old(peers), i)
    {
      var p := peers[i];
      check := true;
      peers := RemoveAt(peers, i);
      if !p.dynamic && p.id != UNDEFINED {
        var q := FreshPeer(UNDEFINED, false, p.address);
        check := !Present(peers, q);
        if check { peers := Insert(peers, q); }
      }
    }

    /** Deregisters one entry whose timer has run out. */
    method PurgeOne(i: nat, now: nat) returns (check: bool)
      requires R.Inv(State()) && i < |peers| && IsExpired(peers[i], now)
      modifies this`peers
      ensures StaticDistinct(old(peers)) ==> check && StaticDistinct(peers)
      ensures check ==> R.Inv(State()) && ExpiredCount(peers, now) + 1 == ExpiredCount(old(peers), now)
      ensures check ==> SameRemains(peers, old(peers), now)
    {
      assert Sorted(peers);
      hide ExpiredCount, Remains, DeregisterPeer, DeregisterCheck, Sorted, R.Inv, StaticDistinct, IsExpired;
      DeregisterKeeps(State(), i);
      if StaticDistinct(peers) { DeregisterDistinct(State(), i); }
      CountDeregister(peers, i, now);
      forall x ensures Remains(DeregisterPeer(peers, i), x, now) <==> Remains(peers, x, now) { RemainsKept(peers, i, x, now); }
      check := DeregisterPeerListNode(i);
    }

    /** Deregisters the entries whose timers have run out, in the order of their timers:
        afterwards exactly those entries are gone or have lost their identifier.  It stops
        where the check of a deregistration fails, which it does not if static addresses are
        distinct. */
    method PurgeExpiredPeers(now: nat) returns (purged: nat, check: bool)
      requires R.Inv(State())
      modifies this`peers
      ensures StaticDistinct(old(peers)) ==> check && StaticDistinct(peers)
      ensures check ==>
        && R.Inv(State()) && purged == ExpiredCount(old(peers), now)
        && (forall x :: x in peers <==> Remains(old(peers), x, now))
        && (forall x :: x in peers ==> !IsExpired(x, now))
    {
      purged, check := 0, true;
      var first: Option<nat> := FirstTimer();
      hide ExpiredCount, R.Inv, StaticDistinct, Remains;
      while first.Some? && peers[first.value].timer.value <= now
        invariant R.Inv(State()) && check && (StaticDistinct(old(peers)) ==> StaticDistinct(peers))
        invariant purged + ExpiredCount(peers, now) == ExpiredCount(old(peers), now)
        invariant SameRemains(peers, old(peers), now)
        invariant first.Some? ==> first.value < |peers| && peers[first.value].timer.Some?
        invariant first.Some? ==> forall p :: p in peers && p.timer.Some? ==> peers[first.value].timer.value <= p.timer.value
        invariant first.None? ==> forall p :: p in peers ==> p.timer.None?
        decreases ExpiredCount(peers, now)
      {
        check := PurgeOne(first.value, now);
        if !check { return; }
        purged := purged + 1;
        first := FirstTimer();
      }
      NoneExpired(peers, now);
    }

    /** The notification from the handlespace. */
    method UpdateNotification(n: Notification)
      modifies this`peers
      ensures peers == Notify(old(peers), n)
    {
      match n
      case Created(home, checksum) => peers := AddTo(peers, home, checksum);
      case Deleted(home, checksum) => peers := SubtractFrom(peers, home, checksum);
      case Updated(before, was, after, now) =>
        peers := SubtractFrom(peers, before, was);
        peers := AddTo(peers, after, now);
    }

    // ---- Elements ----

    method ExcludeFromChecksums(e: Entry)
      modifies this`total, this`ownedTotal, this`owned
      ensures State() == old(State()).(handlespace := Exclude(old(State()).handlespace, e))
    {
      total := Sub(total, e.checksum);
      if e.home == own {
        owned := owned - 1;
        ownedTotal := Sub(ownedTotal, e.checksum);
      }
    }

    method IncludeInChecksums(e: Entry)
      modifies this`total, this`ownedTotal, this`owned
      ensures State() == old(State()).(handlespace := Include(old(State()).handlespace, e))
    {
      total := Add(total, e.checksum);
      if e.home == own {
        owned := owned + 1;
        ownedTotal := Add(ownedTotal, e.checksum);
      }
    }

    method UpdateOwnershipOfPoolElementNode(k: Element, home: nat)
      requires k in elements
      modifies this
      ensures State() == Apply(old(State()), OwnershipChanged(k, home))
    {
      var was := elements[k];
      var now := was.(home := home, checksum := Checksum(k, bigEndian));
      elements := elements[k := now];
      ExcludeFromChecksums(was);
      IncludeInChecksums(now);
      UpdateNotification(Updated(was.home, was.checksum, now.home, now.checksum));
    }

    /** `fits`: the pool's policy and protocol accept the element. */
    method RegisterPoolElement(k: Element, home: nat, fits: bool) returns (error: Error)
      modifies this
      ensures State() == Apply(old(State()), ElementRegistered(k, home, fits))
      ensures error == Okay <==> IsAccepted(k, fits)
    {
      if !ValidElement(k) { return InvalidPoolHandle; }
      if !fits { return Refused; }
      if k in elements {
        elements := elements[k := elements[k].(marked := false)];
        UpdateOwnershipOfPoolElementNode(k, home);
      } else {
        var now := Entry(home, Checksum(k, bigEndian), false);
        elements := elements[k := now];
        IncludeInChecksums(now);
        UpdateNotification(Created(home, now.checksum));
      }
      error := Okay;
    }

    method DeregisterPoolElement(k: Element) returns (error: Error)
      modifies this
      ensures State() == Apply(old(State()), ElementRemoved(k))
      ensures error == if k in old(elements) then Okay else NotFound
    {
      if k !in elements { return NotFound; }
      var was := elements[k];
      elements := elements - {k};
      ExcludeFromChecksums(was);
      UpdateNotification(Deleted(was.home, was.checksum));
      error := Okay;
    }

    /** Marks a registrar's elements one by one. */
    method MarkPoolElementNodes(owner: nat)
      modifies this`elements
      ensures State() == Apply(old(State()), ElementsMarked(owner))
    {
      var found := Found(elements, owner);
      var todo := found.Keys;
      while todo != {}
        invariant elements.Keys == old(elements).Keys
        invariant todo <= found.Keys <= elements.Keys
        invariant forall k :: k in elements && (k in todo || k !in found) ==> elements[k] == old(elements)[k]
        invariant forall k :: k in found && k !in todo ==> elements[k] == old(elements)[k].(marked := true)
        decreases |todo|
      {
        var k :| k in todo;
        elements := elements[k := elements[k].(marked := true)];
        todo := todo - {k};
      }
      assert elements == H.Mark(old(State()).handlespace, owner).elements;
    }

    /** Removes the elements of a registrar that are still marked, in any order. */
    method PurgeMarkedPoolElementNodes(owner: nat) returns (count: nat, ghost order: seq<Element>)
      modifies this
      ensures State() == Run(old(State()), Removals(order))
      ensures IsPurge(old(State()), order, owner)
      ensures count == |order| == |Doomed(old(elements), owner)|
    {
      count, order := 0, [];
      var todo := Doomed(elements, owner);
      while todo != {}
        invariant State() == Run(old(State()), Removals(order))
        invariant forall k :: k in Doomed(old(elements), owner) <==> k in todo || k in order
        invariant count == |order| && count + |todo| == |Doomed(old(elements), owner)|
        decreases |todo|
      {
        var k :| k in todo;
        RunSnoc(old(State()), order, k);
        var error := DeregisterPoolElement(k);
        todo := todo - {k};
        count, order := count + 1, order + [k];
      }
    }
  }

  /** The elements of a registrar that are found and marked. */
  function Doomed(s: Entries, owner: nat): set<Element> {
    set k | k in Found(s, owner) && s[k].marked
  }

  lemma {:induction false} NoneExpired(peers: seq<Peer>, now: nat)
    requires forall p :: p in peers ==> !IsExpired(p, now)
    ensures ExpiredCount(peers, now) == 0
    ensures forall x :: x in peers <==> Remains(peers, x, now)
  {
    if peers != [] {
      assert peers[0] in peers;
      NoneExpired(peers[1..], now);
    }
  }
}
