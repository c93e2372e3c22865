/**
 The order of pool handles and of pool elements in the storages of the handlespace:
 handles by size and then byte by byte; elements by handle and identifier in the index
 storages, and by home registrar, identifier and handle in the ownership storage.
 */
module PoolHandleOrder {

  /** A pool element as the index storages name it, or as the ownership storage does. */
  datatype Key =
    | Key(handle: seq<nat>, id: nat)
    | Entry(home: nat, id: nat, handle: seq<nat>)

  /** memcmp() for blocks of the same size: the sign of the first difference. */
  function Memcmp(a: seq<nat>, b: seq<nat>): int
    requires |a| == |b|
  {
    if a == [] then 0
    else if a[0] < b[0] then -1
    else if a[0] > b[0] then 1
    else Memcmp(a[1..], b[1..])
  }

  function PoolHandleComparison(a: seq<nat>, b: seq<nat>): int {
    if |a| < |b| then -1
    else if |a| > |b| then 1
    else Memcmp(a, b)
  }

  predicate HandleLess(a: seq<nat>, b: seq<nat>) { PoolHandleComparison(a, b) < 0 }

  lemma {:induction false} MemcmpOrder(a: seq<nat>, b: seq<nat>)
    requires |a| == |b|
    ensures Memcmp(a, b) == -Memcmp(b, a)
    ensures Memcmp(a, b) == 0 <==> a == b
  {
    if a != [] {
      MemcmpOrder(a[1..], b[1..]);
      assert a == [a[0]] + a[1..] && b == [b[0]] + b[1..];
    }
  }

  lemma {:induction false} MemcmpTransitive(a: seq<nat>, b: seq<nat>, c: seq<nat>)
    requires |a| == |b| == |c| && Memcmp(a, b) < 0 && Memcmp(b, c) < 0
    ensures Memcmp(a, c) < 0
  {
    if a != [] && a[0] == b[0] == c[0] { MemcmpTransitive(a[1..], b[1..], c[1..]); }
  }

  /** The comparison function is a strict total order on handles. */
  lemma HandleOrder(a: seq<nat>, b: seq<nat>, c: seq<nat>)
    ensures PoolHandleComparison(a, b) == 0 <==> a == b
    ensures HandleLess(a, b) <==> PoolHandleComparison(b, a) > 0
    ensures HandleLess(a, b) && HandleLess(b, c) ==> HandleLess(a, c)
  {
    if |a| == |b| { MemcmpOrder(a, b); }
    if |a| == |b| == |c| && HandleLess(a, b) && HandleLess(b, c) { MemcmpTransitive(a, b, c); }
  }

  /** The order in which the storages list their elements.  No storage holds both kinds. */
  predicate Less(a: Key, b: Key) {
    match (a, b)
    case (Key(h, i), Key(g, j)) => HandleLess(h, g) || (h == g && i < j)
    case (Entry(r, i, h), Entry(s, j, g)) => r < s || (r == s && (i < j || (i == j && HandleLess(h, g))))
    case _ => a.Key? && b.Entry?
  }

  lemma KeyOrder(a: Key, b: Key, c: Key)
    ensures !Less(a, a)
    ensures Less(a, b) && Less(b, c) ==> Less(a, c)
    ensures Less(a, b) || a == b || Less(b, a)
  {
    HandleOrder(a.handle, b.handle, c.handle);
    HandleOrder(b.handle, a.handle, a.handle);
    HandleOrder(a.handle, a.handle, a.handle);
  }
}
