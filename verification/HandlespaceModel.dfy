/**
 The handlespace of a registrar: its pool elements with their home registrars, the
 checksums that are kept up to date with every change, and the notification that each
 change sends to the peer list.
 */
module HandlespaceModel {
  import opened HandlespaceChecksum

  /** A registered element; its handle and identifier are the key under which it is stored. */
  datatype Entry = Entry(home: nat, checksum: Accumulator, marked: bool)

  type Entries = map<Element, Entry>

  datatype Handlespace = Handlespace(
    own: nat,                      // identifier of this registrar
    bigEndian: bool,               // byte order of the machine
    elements: Entries,
    total: Accumulator,            // over all elements
    ownedTotal: Accumulator,       // over the elements owned by this registrar
    owned: int)                    // their number

  datatype Notification =
    | Created(home: nat, checksum: Accumulator)
    | Deleted(home: nat, checksum: Accumulator)
    | Updated(before: nat, was: Accumulator, after: nat, now: Accumulator)

  function Checksum(e: Element, bigEndian: bool): Accumulator { ElementSum(e, bigEndian) % ACCUMULATOR }

  // ---- Sums over the elements ----------------------------------------------------------------------

  /** What is summed up: the checksums of all elements, those of one registrar's elements,
      or the number of one registrar's elements. */
  datatype Measure = AllChecksums | ChecksumsOf(home: nat) | NumberOf(home: nat)

  function Weight(e: Entry, m: Measure): (w: Accumulator) {
    match m
    case AllChecksums => e.checksum
    case ChecksumsOf(home) => if e.home == home then e.checksum else 0
    case NumberOf(home) => if e.home == home then 1 else 0
  }

  ghost function Pick(s: Entries): (k: Element)
    requires s != map[]
    ensures k in s
  {
    var k :| k in s; k
  }

  /** The exact sum, without wrap-around. */
  ghost function Sum(s: Entries, m: Measure): nat
    decreases |s|
  {
    if s == map[] then 0 else var k := Pick(s); Weight(s[k], m) + Sum(s - {k}, m)
  }

  lemma {:induction false} SumRemove(s: Entries, m: Measure, k: Element)
    requires k in s
    ensures Sum(s, m) == Weight(s[k], m) + Sum(s - {k}, m)
    decreases |s|
  {
    var p := Pick(s);
    if p != k {
      SumRemove(s - {p}, m, k);
      SumRemove(s - {k}, m, p);
      assert s - {p} - {k} == s - {k} - {p};
    }
  }

  lemma SumPut(s: Entries, m: Measure, k: Element, e: Entry)
    ensures Sum(s[k := e], m) == Weight(e, m) + Sum(s - {k}, m)
  {
    SumRemove(s[k := e], m, k);
    assert s[k := e] - {k} == s - {k};
  }

  lemma SumAbsent(s: Entries, m: Measure, k: Element)
    requires k !in s
    ensures Sum(s - {k}, m) == Sum(s, m)
  {
    assert s - {k} == s;
  }

  /** The sum depends only on what each element contributes. */
  lemma {:induction false} SumCongruent(s: Entries, t: Entries, m: Measure)
    requires forall k :: k in s || k in t ==> (if k in s then Weight(s[k], m) else 0) == (if k in t then Weight(t[k], m) else 0)
    ensures Sum(s, m) == Sum(t, m)
    decreases |s| + |t|
  {
    if s != map[] {
      var k := Pick(s);
      SumRemove(s, m, k);
      if k in t { SumRemove(t, m, k); } else { SumAbsent(t, m, k); }
      SumCongruent(s - {k}, t - {k}, m);
    } else if t != map[] {
      var k := Pick(t);
      SumRemove(t, m, k);
      SumCongruent(s, t - {k}, m);
    }
  }

  // ---- Changes -------------------------------------------------------------------------------------------

  /** The checksums no longer, or from now on, include an element. */
  function Exclude(h: Handlespace, e: Entry): Handlespace {
    h.(total := Sub(h.total, e.checksum),
       ownedTotal := if e.home == h.own then Sub(h.ownedTotal, e.checksum) else h.ownedTotal,
       owned := if e.home == h.own then h.owned - 1 else h.owned)
  }

  function Include(h: Handlespace, e: Entry): Handlespace {
    h.(total := Add(h.total, e.checksum),
       ownedTotal := if e.home == h.own then Add(h.ownedTotal, e.checksum) else h.ownedTotal,
       owned := if e.home == h.own then h.owned + 1 else h.owned)
  }

  /** The home registrar of an element changes, or stays as it is. */
  function UpdateOwnership(h: Handlespace, k: Element, home: nat): (Handlespace, Notification)
    requires k in h.elements
  {
    var was := h.elements[k];
    var now := was.(home := home, checksum := Checksum(k, h.bigEndian));
    var h' := Include(Exclude(h, was), now);
    (h'.(elements := h.elements[k := now]), Updated(was.home, was.checksum, now.home, now.checksum))
  }

  /** A (re-)registration: a known element is no longer marked. */
  function Register(h: Handlespace, k: Element, home: nat): (Handlespace, Notification) {
    if k in h.elements then
      UpdateOwnership(h.(elements := h.elements[k := h.elements[k].(marked := false)]), k, home)
    else
      var now := Entry(home, Checksum(k, h.bigEndian), false);
      (Include(h, now).(elements := h.elements[k := now]), Created(home, now.checksum))
  }

  function Remove(h: Handlespace, k: Element): (Handlespace, Notification)
    requires k in h.elements
  {
    var was := h.elements[k];
    (Exclude(h, was).(elements := h.elements - {k}), Deleted(was.home, was.checksum))
  }

  predicate IsOwned(s: Entries, k: Element, home: nat) { k in s && s[k].home == home }

  /** The element from which the search for a registrar's first element starts: identifier
      zero and the handle of one zero byte. */
  const UNSEEN := Element([0], [0, 0, 0, 0])

  /** The search looks behind that element, and so misses it if nothing is there at all. */
  predicate Missed(s: Entries, owner: nat) {
    UNSEEN in s && s[UNSEEN].home == owner && forall k :: k in s && k != UNSEEN ==> s[k].home < owner
  }

  /** A registrar's elements, as far as the search finds them. */
  function Found(s: Entries, owner: nat): Entries {
    map k | k in s && s[k].home == owner && !Missed(s, owner) :: s[k]
  }

  function Mark(h: Handlespace, owner: nat): Handlespace {
    h.(elements := map k | k in h.elements ::
         if k in Found(h.elements, owner) then h.elements[k].(marked := true) else h.elements[k])
  }

  // ---- The checksums stay right --------------------------------------------------------------------------

  ghost predicate Inv(h: Handlespace) {
    && (forall k :: k in h.elements ==> h.elements[k].checksum == Checksum(k, h.bigEndian))
    && h.total == Sum(h.elements, AllChecksums) % ACCUMULATOR
    && h.ownedTotal == Sum(h.elements, ChecksumsOf(h.own)) % ACCUMULATOR
    && h.owned == Sum(h.elements, NumberOf(h.own))
  }

  lemma SubModulo(w: Accumulator, s: nat)
    ensures Sub((w + s) % ACCUMULATOR, w) == s % ACCUMULATOR
    ensures Add(s % ACCUMULATOR, w) == (w + s) % ACCUMULATOR
  {
  }

  /** What the three counters are, when they stand for the elements `s`. */
  ghost predicate Counts(h: Handlespace, s: Entries) {
    && h.total == Sum(s, AllChecksums) % ACCUMULATOR
    && h.ownedTotal == Sum(s, ChecksumsOf(h.own)) % ACCUMULATOR
    && h.owned == Sum(s, NumberOf(h.own))
  }

  lemma ExcludeCounts(h: Handlespace, s: Entries, k: Element)
    requires k in s && Counts(h, s)
    ensures Counts(Exclude(h, s[k]), s - {k})
    ensures s[k].home == h.own ==> h.owned > 0
  {
    SumRemove(s, AllChecksums, k);
    SumRemove(s, ChecksumsOf(h.own), k);
    SumRemove(s, NumberOf(h.own), k);
    SubModulo(s[k].checksum, Sum(s - {k}, AllChecksums));
    SubModulo(s[k].checksum, Sum(s - {k}, ChecksumsOf(h.own)));
  }

  lemma IncludeCounts(h: Handlespace, s: Entries, k: Element, e: Entry)
    requires Counts(h, s - {k})
    ensures Counts(Include(h, e), s[k := e])
  {
    SumPut(s, AllChecksums, k, e);
    SumPut(s, ChecksumsOf(h.own), k, e);
    SumPut(s, NumberOf(h.own), k, e);
    SubModulo(e.checksum, Sum(s - {k}, AllChecksums));
    SubModulo(e.checksum, Sum(s - {k}, ChecksumsOf(h.own)));
  }

  /** Every change keeps the checksums equal to the recomputed ones.  An owned element
      that goes away was counted, so that the counter does not get below zero. */
  lemma UpdateKeepsInv(h: Handlespace, k: Element, home: nat)
    requires Inv(h) && k in h.elements
    ensures Inv(UpdateOwnership(h, k, home).0)
    ensures h.elements[k].home == h.own ==> h.owned > 0
  {
    var was := h.elements[k];
    var now := was.(home := home, checksum := Checksum(k, h.bigEndian));
    ExcludeCounts(h, h.elements, k);
    IncludeCounts(Exclude(h, was), h.elements, k, now);
  }

  lemma RemoveKeepsInv(h: Handlespace, k: Element)
    requires Inv(h) && k in h.elements
    ensures Inv(Remove(h, k).0)
    ensures h.elements[k].home == h.own ==> h.owned > 0
  {
    ExcludeCounts(h, h.elements, k);
  }

  lemma SameCounts(h: Handlespace, s: Entries)
    requires Counts(h, h.elements) && s.Keys == h.elements.Keys
    requires forall k :: k in s ==> s[k].home == h.elements[k].home && s[k].checksum == h.elements[k].checksum
    ensures Counts(h, s)
  {
    SumCongruent(h.elements, s, AllChecksums);
    SumCongruent(h.elements, s, ChecksumsOf(h.own));
    SumCongruent(h.elements, s, NumberOf(h.own));
  }

  lemma RegisterKeepsInv(h: Handlespace, k: Element, home: nat)
    requires Inv(h)
    ensures Inv(Register(h, k, home).0)
  {
    if k in h.elements {
      var s := h.elements[k := h.elements[k].(marked := false)];
      SameCounts(h, s);
      UpdateKeepsInv(h.(elements := s), k, home);
    } else {
      assert h.elements - {k} == h.elements;
      IncludeCounts(h, h.elements, k, Entry(home, Checksum(k, h.bigEndian), false));
    }
  }

  lemma MarkKeepsInv(h: Handlespace, owner: nat)
    requires Inv(h)
    ensures Inv(Mark(h, owner))
  {
    SameCounts(h, Mark(h, owner).elements);
  }

  // ---- The element that a search can miss ------------------------------------------------------------------

  lemma UnseenWeighsNothing(bigEndian: bool)
    ensures ElementSum(UNSEEN, bigEndian) == 0 && Checksum(UNSEEN, bigEndian) == 0
  {
    var id: seq<Byte> := [0, 0, 0, 0];
    assert id[2..] == [0, 0] && id[2..][2..] == [];
    assert WordSum(id[2..][2..], bigEndian) == 0;
    assert WordSum(id[2..], bigEndian) == 0;
    assert WordSum(id, bigEndian) == 0;
  }

  /** It does not matter for the checksum: what is found has the checksum of what is owned. */
  lemma FoundSum(h: Handlespace, owner: nat)
    requires Inv(h)
    ensures Sum(Found(h.elements, owner), ChecksumsOf(owner)) == Sum(h.elements, ChecksumsOf(owner))
  {
    UnseenWeighsNothing(h.bigEndian);
    SumCongruent(Found(h.elements, owner), h.elements, ChecksumsOf(owner));
  }

  // ---- Machines of different byte order -------------------------------------------------------------------------

  /** Two handlespaces list the same elements for a registrar, up to the one without weight. */
  ghost predicate SameOwned(s: Entries, t: Entries, home: nat) {
    forall k :: k != UNSEEN ==> (IsOwned(s, k, home) <==> IsOwned(t, k, home))
  }

  predicate AllValid(s: Entries) { forall k :: k in s ==> ValidElement(k) }

  ghost predicate ExactSums(s: Entries, home: nat, bigEndian: bool) {
    forall k :: IsOwned(s, k, home) ==> s[k].checksum == ElementSum(k, bigEndian)
  }

  lemma SameOwnedRemove(s: Entries, t: Entries, home: nat, k: Element)
    requires SameOwned(s, t, home)
    ensures SameOwned(s - {k}, t - {k}, home)
  {
    forall x | x != UNSEEN ensures IsOwned(s - {k}, x, home) <==> IsOwned(t - {k}, x, home) {
      assert IsOwned(s, x, home) <==> IsOwned(t, x, home);
    }
  }

  lemma {:induction false} OrdersRelate(little: Entries, big: Entries, home: nat) returns (c: nat)
    requires SameOwned(little, big, home) && ExactSums(little, home, false) && ExactSums(big, home, true)
    ensures 256 * Sum(little, ChecksumsOf(home)) == Sum(big, ChecksumsOf(home)) + 65535 * c
    ensures Sum(little, ChecksumsOf(home)) == 0 <==> Sum(big, ChecksumsOf(home)) == 0
    decreases |little| + |big|
  {
    var m := ChecksumsOf(home);
    if little == map[] && big == map[] {
      c := 0;
    } else {
      var k := if little != map[] then Pick(little) else Pick(big);
      RemoveAnyway(little, m, k);
      RemoveAnyway(big, m, k);
      SameOwnedRemove(little, big, home, k);
      c := OrdersRelate(little - {k}, big - {k}, home);
      UnseenWeighsNothing(false);
      UnseenWeighsNothing(true);
      if k != UNSEEN && IsOwned(little, k, home) {
        assert IsOwned(big, k, home);
        WordSumsRelate(k.handle);
        WordSumsRelate(k.identifier);
        c := c + HighBytes(k.handle) + HighBytes(k.identifier);
      }
    }
  }

  lemma RemoveAnyway(s: Entries, m: Measure, k: Element)
    ensures Sum(s, m) == (if k in s then Weight(s[k], m) else 0) + Sum(s - {k}, m)
    ensures k in s ==> |s - {k}| < |s|
    ensures k !in s ==> s - {k} == s
  {
    if k in s { SumRemove(s, m, k); } else { SumAbsent(s, m, k); }
  }

  lemma {:induction false} SumBound(s: Entries, home: nat, bigEndian: bool)
    requires ExactSums(s, home, bigEndian) && AllValid(s)
    ensures Sum(s, ChecksumsOf(home)) <= 18 * 65535 * Sum(s, NumberOf(home))
    decreases |s|
  {
    if s != map[] {
      var k := Pick(s);
      SumRemove(s, ChecksumsOf(home), k);
      SumRemove(s, NumberOf(home), k);
      SumBound(s - {k}, home, bigEndian);
      ElementSumBound(k, bigEndian);
    }
  }

  /** The same elements with the checksums of either byte order. */
  function Restored(s: Entries, bigEndian: bool): Entries {
    map k | k in s :: s[k].(checksum := Checksum(k, bigEndian))
  }

  lemma RestoredExact(s: Entries, home: nat, bigEndian: bool)
    requires AllValid(s)
    ensures AllValid(Restored(s, bigEndian)) && ExactSums(Restored(s, bigEndian), home, bigEndian) && SameOwned(s, Restored(s, bigEndian), home)
    ensures Sum(Restored(s, bigEndian), NumberOf(home)) == Sum(s, NumberOf(home))
  {
    forall k | k in s ensures Checksum(k, bigEndian) == ElementSum(k, bigEndian) { ElementSumBound(k, bigEndian); }
    SumCongruent(Restored(s, bigEndian), s, NumberOf(home));
  }

  /** What a checksum looks like in a message: two bytes as they lie in memory. */
  function OnTheWire(sum: Accumulator, bigEndian: bool): Word {
    if bigEndian then 65535 - Fold(sum) else Swap(65535 - Fold(sum))
  }

  lemma SameOrderSums(s: Entries, t: Entries, home: nat, bigEndian: bool)
    requires SameOwned(s, t, home) && ExactSums(s, home, bigEndian) && ExactSums(t, home, bigEndian)
    ensures Sum(s, ChecksumsOf(home)) == Sum(t, ChecksumsOf(home))
  {
    UnseenWeighsNothing(bigEndian);
    var m := ChecksumsOf(home);
    forall k | k in s || k in t
      ensures (if k in s then Weight(s[k], m) else 0) == (if k in t then Weight(t[k], m) else 0)
    {
      assert k != UNSEEN ==> (IsOwned(s, k, home) <==> IsOwned(t, k, home));
    }
    SumCongruent(s, t, m);
  }

  lemma SameOwnedThrough(s: Entries, t: Entries, u: Entries, home: nat)
    requires SameOwned(s, t, home) && SameOwned(t, u, home)
    ensures SameOwned(s, u, home)
  {
    forall k | k != UNSEEN ensures IsOwned(s, k, home) <==> IsOwned(u, k, home) {
      assert IsOwned(s, k, home) <==> IsOwned(t, k, home);
    }
  }

  lemma StaysSmall(sum: nat, n: nat)
    requires sum <= 18 * 65535 * n && n <= 3640
    ensures sum < ACCUMULATOR
  {
  }

  /** The elements that a registrar owns have a small sum in either byte order. */
  lemma SmallSum(s: Entries, t: Entries, home: nat, bigEndian: bool)
    requires SameOwned(s, t, home) && ExactSums(s, home, bigEndian)
    requires AllValid(t) && Sum(t, NumberOf(home)) <= 3640
    ensures Sum(s, ChecksumsOf(home)) < ACCUMULATOR
  {
    hide SameOwned, ExactSums, Sum, Restored, AllValid;
    var u := Restored(t, bigEndian);
    RestoredExact(t, home, bigEndian);
    SameOwnedThrough(s, t, u, home);
    SameOrderSums(s, u, home, bigEndian);
    SumBound(u, home, bigEndian);
    StaysSmall(Sum(s, ChecksumsOf(home)), Sum(t, NumberOf(home)));
  }

  lemma SwappedWords(little: Accumulator, big: Accumulator, c: nat)
    requires 256 * little == big + 65535 * c && (little == 0 <==> big == 0)
    ensures OnTheWire(little, false) == OnTheWire(big, true)
  {
    FoldSwaps(little, big, c);
    SwapComplement(Fold(little));
  }

  lemma OrdersAgree(little: Entries, big: Entries, home: nat)
    requires SameOwned(little, big, home) && ExactSums(little, home, false) && ExactSums(big, home, true)
    requires Sum(little, ChecksumsOf(home)) < ACCUMULATOR && Sum(big, ChecksumsOf(home)) < ACCUMULATOR
    ensures OnTheWire(Sum(little, ChecksumsOf(home)), false) == OnTheWire(Sum(big, ChecksumsOf(home)), true)
  {
    hide SameOwned, ExactSums, Sum, OnTheWire;
    var c := OrdersRelate(little, big, home);
    SwappedWords(Sum(little, ChecksumsOf(home)), Sum(big, ChecksumsOf(home)), c);
  }

  /** The same elements give the same bytes on machines of either byte order, as long as
      the accumulators do not wrap around. */
  lemma WireAgrees(s: Entries, t: Entries, home: nat, sBig: bool, tBig: bool)
    requires SameOwned(s, t, home) && ExactSums(s, home, sBig) && ExactSums(t, home, tBig)
    requires Sum(s, ChecksumsOf(home)) < ACCUMULATOR && Sum(t, ChecksumsOf(home)) < ACCUMULATOR
    ensures OnTheWire(Sum(s, ChecksumsOf(home)), sBig) == OnTheWire(Sum(t, ChecksumsOf(home)), tBig)
  {
    hide ExactSums, Sum, OnTheWire;
    assert SameOwned(t, s, home);
    hide SameOwned;
    if sBig == tBig {
      SameOrderSums(s, t, home, sBig);
    } else if sBig {
      OrdersAgree(t, s, home);
    } else {
      OrdersAgree(s, t, home);
    }
  }

  lemma Unwrapped(n: nat)
    requires n < ACCUMULATOR
    ensures n % ACCUMULATOR == n
  {
  }

  /** The bytes on the wire agree for up to 3640 elements, however they are known. */
  lemma FewAgree(s: Entries, t: Entries, home: nat, sBig: bool, tBig: bool)
    requires SameOwned(s, t, home) && ExactSums(s, home, sBig) && ExactSums(t, home, tBig)
    requires AllValid(t) && Sum(t, NumberOf(home)) <= 3640
    ensures OnTheWire(Sum(s, ChecksumsOf(home)) % ACCUMULATOR, sBig) == OnTheWire(Sum(t, ChecksumsOf(home)) % ACCUMULATOR, tBig)
  {
    assert SameOwned(t, t, home);
    hide SameOwned, ExactSums, Sum, AllValid, OnTheWire;
    SmallSum(s, t, home, sBig);
    SmallSum(t, t, home, tBig);
    Unwrapped(Sum(s, ChecksumsOf(home)));
    Unwrapped(Sum(t, ChecksumsOf(home)));
    WireAgrees(s, t, home, sBig, tBig);
  }
}
