/**
 The comparisons of transport address blocks: the total order of the peer list's index, and
 the overlap by which a registrar is recognised.
 */
module TransportAddresses {
  import opened PoolHandleOrder
  import opened PeerList

  /** addresscmp() without the port. */
  function HostComparison(a: nat, b: nat): int { if a < b then -1 else if a > b then 1 else 0 }

  /** transportAddressBlockComparison() */
  method BlockComparison(a: Address, b: Address) returns (r: int)
    ensures r == AddressComparison(a, b)
  {
    if a.port < b.port { return -1; } else if a.port > b.port { return 1; }
    if a.flags < b.flags { return -1; } else if a.flags > b.flags { return 1; }
    if |a.hosts| < |b.hosts| { return -1; } else if |a.hosts| > |b.hosts| { return 1; }
    r := CompareHosts(a.hosts, b.hosts);
  }

  method CompareHosts(a: seq<nat>, b: seq<nat>) returns (r: int)
    requires |a| == |b|
    ensures r == Memcmp(a, b)
  {
    var i := 0;
    assert a[0..] == a && b[0..] == b;
    while i < |a|
      invariant 0 <= i <= |a| && Memcmp(a, b) == Memcmp(a[i..], b[i..])
    {
      assert a[i..][1..] == a[i + 1..] && b[i..][1..] == b[i + 1..];
      r := HostComparison(a[i], b[i]);
      if r != 0 { return; }
      i := i + 1;
    }
    r := 0;
  }

  method ShareHost(a: seq<nat>, b: seq<nat>) returns (found: bool)
    ensures found <==> exists x :: x in a && x in b
  {
    var i := 0;
    while i < |a|
      invariant 0 <= i <= |a| && forall k :: 0 <= k < i ==> a[k] !in b
    {
      var j := 0;
      while j < |b|
        invariant 0 <= j <= |b| && forall k :: 0 <= k < j ==> b[k] != a[i]
      {
        if HostComparison(a[i], b[j]) == 0 {
          assert a[i] in a && a[i] in b;
          return true;
        }
        j := j + 1;
      }
      i := i + 1;
    }
    return false;
  }

  /** transportAddressBlockOverlapComparison(): zero exactly for blocks of the same port and
      flags that have an address in common, or no addresses at all. */
  method OverlapComparison(a: Address, b: Address) returns (r: int)
    ensures r == 0 <==> Overlap(a, b)
  {
    if a.port < b.port { return -1; } else if a.port > b.port { return 1; }
    if a.flags < b.flags { return -1; } else if a.flags > b.flags { return 1; }
    var found := ShareHost(a.hosts, b.hosts);
    if found { return 0; }
    if |a.hosts| < |b.hosts| { return -1; } else if |a.hosts| > |b.hosts| { return 1; }
    r := CompareHosts(a.hosts, b.hosts);
    MemcmpOrder(a.hosts, b.hosts);
    if a.hosts != [] { assert a.hosts[0] in a.hosts; }
  }

  /** Overlap does not depend on the order of the two blocks, and equal blocks overlap. */
  lemma OverlapIsMutual(a: Address, b: Address)
    ensures Overlap(a, b) <==> Overlap(b, a)
    ensures AddressComparison(a, b) == 0 ==> Overlap(a, b)
  {
    AddressOrder(a, b, a);
    if a.hosts != [] { assert a.hosts[0] in a.hosts; }
  }
}
