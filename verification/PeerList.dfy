/**
 The list of the other registrars, in the order of its index storage: by identifier, and
 entries without identifier by their addresses.
 */
module PeerList {
  import opened Wrappers
  import opened HandlespaceChecksum
  import opened PoolHandleOrder
  import opened HandlespaceModel

  const UNDEFINED := 0

  datatype Address = Address(port: nat, flags: nat, hosts: seq<nat>)

  /** Blocks are compared by port, flags, number of addresses and then address by address. */
  function AddressComparison(a: Address, b: Address): int {
    if a.port < b.port then -1 else if a.port > b.port then 1
    else if a.flags < b.flags then -1 else if a.flags > b.flags then 1
    else PoolHandleComparison(a.hosts, b.hosts)
  }

  /** Two blocks overlap if they have an address in common. */
  predicate Overlap(a: Address, b: Address) {
    && a.port == b.port && a.flags == b.flags
    && ((exists x :: x in a.hosts && x in b.hosts) || (a.hosts == [] && b.hosts == []))
  }

  lemma AddressOrder(a: Address, b: Address, c: Address)
    ensures AddressComparison(a, b) == 0 <==> a == b
    ensures AddressComparison(a, b) < 0 <==> AddressComparison(b, a) > 0
    ensures AddressComparison(a, b) < 0 && AddressComparison(b, c) < 0 ==> AddressComparison(a, c) < 0
  {
    HandleOrder(a.hosts, b.hosts, c.hosts);
  }

  datatype Peer = Peer(
    id: nat,
    dynamic: bool,
    isNew: bool,
    address: Address,
    checksum: Accumulator,
    updated: nat,
    timer: Option<nat>)

  function FreshPeer(id: nat, dynamic: bool, address: Address): Peer {
    Peer(id, dynamic, false, address, 0, 0, None)
  }

  predicate Precedes(a: Peer, b: Peer) {
    a.id < b.id || (a.id == UNDEFINED && b.id == UNDEFINED && AddressComparison(a.address, b.address) < 0)
  }

  predicate SameKey(a: Peer, b: Peer) {
    a.id == b.id && (a.id == UNDEFINED ==> a.address == b.address)
  }

  lemma PeerOrder(a: Peer, b: Peer, c: Peer)
    ensures Precedes(a, b) && Precedes(b, c) ==> Precedes(a, c)
    ensures Precedes(a, b) || SameKey(a, b) || Precedes(b, a)
    ensures Precedes(a, b) ==> !SameKey(a, b)
  {
    AddressOrder(a.address, b.address, c.address);
    AddressOrder(b.address, a.address, a.address);
  }

  predicate Sorted(peers: seq<Peer>) {
    forall i, j :: 0 <= i < j < |peers| ==> Precedes(peers[i], peers[j])
  }

  /** Where an entry belongs. */
  function Position(peers: seq<Peer>, p: Peer): (n: nat)
    ensures n <= |peers|
    ensures forall j :: 0 <= j < n ==> Precedes(peers[j], p)
    ensures n < |peers| ==> !Precedes(peers[n], p)
  {
    if peers == [] || !Precedes(peers[0], p) then 0
    else assert peers == [peers[0]] + peers[1..]; 1 + Position(peers[1..], p)
  }

  predicate Present(peers: seq<Peer>, p: Peer) {
    Position(peers, p) < |peers| && SameKey(peers[Position(peers, p)], p)
  }

  function Insert(peers: seq<Peer>, p: Peer): seq<Peer> {
    peers[..Position(peers, p)] + [p] + peers[Position(peers, p)..]
  }

  function RemoveAt(peers: seq<Peer>, i: nat): seq<Peer>
    requires i < |peers|
  {
    peers[..i] + peers[i + 1..]
  }

  lemma KeyDetermines(a: Peer, b: Peer, p: Peer)
    requires SameKey(b, p)
    ensures Precedes(a, p) <==> Precedes(a, b)
    ensures Precedes(p, a) <==> Precedes(b, a)
    ensures SameKey(a, p) <==> SameKey(a, b)
    ensures !Precedes(b, p)
  {
    PeerOrder(b, p, b);
    PeerOrder(p, b, p);
  }

  lemma PresentIff(peers: seq<Peer>, p: Peer)
    requires Sorted(peers)
    ensures Present(peers, p) <==> exists x :: x in peers && SameKey(x, p)
  {
    var n := Position(peers, p);
    if Present(peers, p) {
      assert peers[n] in peers;
    }
    forall i | 0 <= i < |peers| && SameKey(peers[i], p) ensures i == n {
      KeyDetermines(peers[i], peers[i], p);
      assert n <= i;
      KeyDetermines(peers[n], peers[i], p);
    }
  }

  lemma InsertSorted(peers: seq<Peer>, p: Peer)
    requires Sorted(peers) && !Present(peers, p)
    ensures Sorted(Insert(peers, p))
  {
    var n, r := Position(peers, p), Insert(peers, p);
    forall i, j | 0 <= i < j < |r| ensures Precedes(r[i], r[j]) {
      if i == n {
        PeerOrder(p, peers[n], peers[j - 1]);
      } else if i < n < j {
        PeerOrder(peers[i], p, peers[j - 1]);
      }
    }
  }

  lemma InsertMembers(peers: seq<Peer>, p: Peer, x: Peer)
    ensures x in Insert(peers, p) <==> x in peers || x == p
  {
    var n := Position(peers, p);
    assert peers == peers[..n] + peers[n..];
  }

  lemma RemoveSorted(peers: seq<Peer>, i: nat)
    requires Sorted(peers) && i < |peers|
    ensures Sorted(RemoveAt(peers, i))
  {
  }

  lemma RemoveMembers(peers: seq<Peer>, i: nat, x: Peer)
    requires Sorted(peers) && i < |peers|
    ensures x in RemoveAt(peers, i) <==> x in peers && !SameKey(x, peers[i])
  {
    var r := RemoveAt(peers, i);
    if x in r {
      var j :| 0 <= j < |r| && r[j] == x;
      PeerOrder(x, peers[i], x);
      PeerOrder(peers[i], x, x);
      if j < i { assert peers[j] == x; } else { assert peers[j + 1] == x; }
    }
    if x in peers && !SameKey(x, peers[i]) {
      var j :| 0 <= j < |peers| && peers[j] == x;
      assert j != i && x == r[if j < i then j else j - 1];
    }
  }

  lemma ReplaceSorted(peers: seq<Peer>, i: nat, q: Peer)
    requires Sorted(peers) && i < |peers| && SameKey(peers[i], q)
    ensures Sorted(peers[i := q])
  {
  }

  /** Identifiers are unique. */
  lemma IdentifiersUnique(peers: seq<Peer>, i: nat, j: nat)
    requires Sorted(peers) && i < |peers| && j < |peers| && peers[i].id == peers[j].id != UNDEFINED
    ensures i == j
  {
  }

  // ---- Searching ------------------------------------------------------------------------------------

  function FindId(peers: seq<Peer>, id: nat): (r: Option<nat>)
    ensures r.Some? ==> r.value < |peers| && peers[r.value].id == id
    ensures r.None? ==> forall p :: p in peers ==> p.id != id
  {
    if peers == [] then None
    else if peers[0].id == id then Some(0)
    else
      assert peers == [peers[0]] + peers[1..];
      var r := FindId(peers[1..], id);
      if r.None? then None else Some(r.value + 1)
  }

  /** The first entry in index order whose addresses overlap. */
  function FindOverlap(peers: seq<Peer>, address: Address): (r: Option<nat>)
    ensures r.Some? ==> r.value < |peers| && Overlap(peers[r.value].address, address)
    ensures forall j :: 0 <= j < (if r.Some? then r.value else |peers|) ==> !Overlap(peers[j].address, address)
  {
    if peers == [] then None
    else if Overlap(peers[0].address, address) then Some(0)
    else
      var r := FindOverlap(peers[1..], address);
      assert peers == [peers[0]] + peers[1..];
      if r.None? then None else Some(r.value + 1)
  }

  // ---- Notifications from the handlespace -------------------------------------------------------------

  /** Adds to, or subtracts from, the checksum of the peer with an identifier, if it is
      listed.  No entry is looked up by an undefined identifier here. */
  function AddTo(peers: seq<Peer>, id: nat, c: Accumulator): seq<Peer> {
    var i := FindId(peers, id);
    if id == UNDEFINED || i.None? then peers
    else peers[i.value := peers[i.value].(checksum := Add(peers[i.value].checksum, c))]
  }

  function SubtractFrom(peers: seq<Peer>, id: nat, c: Accumulator): seq<Peer> {
    var i := FindId(peers, id);
    if id == UNDEFINED || i.None? then peers
    else peers[i.value := peers[i.value].(checksum := Sub(peers[i.value].checksum, c))]
  }

  function Notify(peers: seq<Peer>, n: Notification): seq<Peer> {
    match n
    case Created(home, checksum) => AddTo(peers, home, checksum)
    case Deleted(home, checksum) => SubtractFrom(peers, home, checksum)
    case Updated(before, was, after, now) => AddTo(SubtractFrom(peers, before, was), after, now)
  }

  /** What a notification means for the checksum of the elements of registrar `id`. */
  function Adjusted(c: Accumulator, n: Notification, id: nat): Accumulator {
    match n
    case Created(home, checksum) => if home == id then Add(c, checksum) else c
    case Deleted(home, checksum) => if home == id then Sub(c, checksum) else c
    case Updated(before, was, after, now) =>
      var d := if before == id then Sub(c, was) else c;
      if after == id then Add(d, now) else d
  }

  predicate Defined(n: Notification) {
    match n
    case Created(home, _) => home != UNDEFINED
    case Deleted(home, _) => home != UNDEFINED
    case Updated(before, _, after, _) => before != UNDEFINED && after != UNDEFINED
  }

  lemma AddToEffect(peers: seq<Peer>, id: nat, c: Accumulator)
    requires Sorted(peers) && id != UNDEFINED
    ensures var r := AddTo(peers, id, c);
      && |r| == |peers| && Sorted(r)
      && forall j :: 0 <= j < |peers| ==> r[j] == peers[j].(checksum := if peers[j].id == id then Add(peers[j].checksum, c) else peers[j].checksum)
  {
    var i := FindId(peers, id);
    forall j | 0 <= j < |peers| && peers[j].id == id ensures i == Some(j) {
      assert peers[j] in peers;
      IdentifiersUnique(peers, i.value, j);
    }
  }

  lemma SubtractFromEffect(peers: seq<Peer>, id: nat, c: Accumulator)
    requires Sorted(peers) && id != UNDEFINED
    ensures var r := SubtractFrom(peers, id, c);
      && |r| == |peers| && Sorted(r)
      && forall j :: 0 <= j < |peers| ==> r[j] == peers[j].(checksum := if peers[j].id == id then Sub(peers[j].checksum, c) else peers[j].checksum)
  {
    var i := FindId(peers, id);
    forall j | 0 <= j < |peers| && peers[j].id == id ensures i == Some(j) {
      assert peers[j] in peers;
      IdentifiersUnique(peers, i.value, j);
    }
  }

  /** A notification changes exactly the checksums that it should. */
  lemma NotifyEffect(peers: seq<Peer>, n: Notification)
    requires Sorted(peers) && Defined(n)
    ensures var r := Notify(peers, n);
      && |r| == |peers| && Sorted(r)
      && forall j :: 0 <= j < |peers| ==> r[j] == peers[j].(checksum := Adjusted(peers[j].checksum, n, peers[j].id))
  {
    match n
    case Created(home, checksum) => AddToEffect(peers, home, checksum);
    case Deleted(home, checksum) => SubtractFromEffect(peers, home, checksum);
    case Updated(before, was, after, now) =>
      SubtractFromEffect(peers, before, was);
      AddToEffect(SubtractFrom(peers, before, was), after, now);
  }
}
