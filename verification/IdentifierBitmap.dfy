/**
 The allocator of small identifiers: one bit per identifier in an array of 64-bit
 words, and a count of the identifiers that are still available.
 */
module IdentifierBitmap {

  const SLOT_SIZE := 64

  // ---- Bits of a word ---------------------------------------------------------------

  /** w & (1UL << j) */
  predicate BitAt(w: nat, j: nat)
    decreases j
  {
    if j == 0 then w % 2 == 1 else BitAt(w / 2, j - 1)
  }

  /** w | (1UL << j) */
  function SetBit(w: nat, j: nat): nat
    decreases j
  {
    if j == 0 then w / 2 * 2 + 1 else SetBit(w / 2, j - 1) * 2 + w % 2
  }

  /** w & ~(1UL << j) */
  function ClearBit(w: nat, j: nat): nat
    decreases j
  {
    if j == 0 then w / 2 * 2 else ClearBit(w / 2, j - 1) * 2 + w % 2
  }

  /** The word of `n` ones; ~((size_t)0) for the word size. */
  function AllOnes(n: nat): nat {
    if n == 0 then 0 else AllOnes(n - 1) * 2 + 1
  }

  lemma {:induction false} SetBitEffect(w: nat, j: nat, k: nat)
    ensures BitAt(SetBit(w, j), k) <==> k == j || BitAt(w, k)
    decreases j
  {
    if j > 0 && k > 0 { SetBitEffect(w / 2, j - 1, k - 1); }
  }

  lemma {:induction false} ClearBitEffect(w: nat, j: nat, k: nat)
    ensures BitAt(ClearBit(w, j), k) <==> k != j && BitAt(w, k)
    decreases j
  {
    if j > 0 && k > 0 { ClearBitEffect(w / 2, j - 1, k - 1); }
  }

  lemma {:induction false} SetBitStaysInWord(w: nat, j: nat, n: nat)
    requires w <= AllOnes(n) && j < n
    ensures SetBit(w, j) <= AllOnes(n)
    decreases j
  {
    assert w / 2 <= AllOnes(n - 1);
    if j > 0 { SetBitStaysInWord(w / 2, j - 1, n - 1); }
  }

  lemma {:induction false} ClearBitShrinks(w: nat, j: nat)
    ensures ClearBit(w, j) <= w
    decreases j
  {
    if j > 0 { ClearBitShrinks(w / 2, j - 1); }
  }

  lemma {:induction false} ZeroHasNoBits(j: nat)
    ensures !BitAt(0, j)
  {
    if j > 0 { ZeroHasNoBits(j - 1); }
  }

  /** A word that is not full has a clear bit. */
  lemma {:induction false} ClearBitExists(w: nat, n: nat) returns (j: nat)
    requires w < AllOnes(n)
    ensures j < n && !BitAt(w, j)
  {
    if w % 2 == 0 {
      j := 0;
    } else {
      j := ClearBitExists(w / 2, n - 1);
      j := j + 1;
    }
  }

  lemma {:induction false} FullHasAllBits(n: nat, j: nat)
    requires j < n
    ensures BitAt(AllOnes(n), j)
    decreases j
  {
    if j > 0 { FullHasAllBits(n - 1, j - 1); }
  }

  // ---- The bitmap -----------------------------------------------------------------------

  /** Whether an identifier is in use. */
  predicate InUse(words: seq<nat>, id: nat)
    requires id < SLOT_SIZE * |words|
  {
    BitAt(words[id / SLOT_SIZE], id % SLOT_SIZE)
  }

  /** Number of clear bits among the first `n`. */
  function FreeCount(words: seq<nat>, n: nat): nat
    requires n <= SLOT_SIZE * |words|
  {
    if n == 0 then 0 else FreeCount(words, n - 1) + (if InUse(words, n - 1) then 0 else 1)
  }

  predicate ValidWords(words: seq<nat>) {
    forall i :: 0 <= i < |words| ==> words[i] <= AllOnes(SLOT_SIZE)
  }

  /** The words after one bit was set or cleared. */
  function Written(words: seq<nat>, id: nat, value: bool): seq<nat>
    requires id < SLOT_SIZE * |words|
  {
    var i, j := id / SLOT_SIZE, id % SLOT_SIZE;
    words[i := if value then SetBit(words[i], j) else ClearBit(words[i], j)]
  }

  /** Only the one bit changes. */
  lemma WrittenEffect(words: seq<nat>, id: nat, value: bool, other: nat)
    requires id < SLOT_SIZE * |words| && other < SLOT_SIZE * |words|
    ensures InUse(Written(words, id, value), other) <==> if other == id then value else InUse(words, other)
  {
    var i, j := id / SLOT_SIZE, id % SLOT_SIZE;
    if other / SLOT_SIZE == i {
      SetBitEffect(words[i], j, other % SLOT_SIZE);
      ClearBitEffect(words[i], j, other % SLOT_SIZE);
    }
  }

  lemma WrittenValid(words: seq<nat>, id: nat, value: bool)
    requires id < SLOT_SIZE * |words| && ValidWords(words)
    ensures ValidWords(Written(words, id, value))
  {
    SetBitStaysInWord(words[id / SLOT_SIZE], id % SLOT_SIZE, SLOT_SIZE);
    ClearBitShrinks(words[id / SLOT_SIZE], id % SLOT_SIZE);
  }

  lemma {:induction false} WrittenCount(words: seq<nat>, id: nat, value: bool, n: nat)
    requires id < SLOT_SIZE * |words| && n <= SLOT_SIZE * |words| && (value <==> !InUse(words, id))
    ensures FreeCount(Written(words, id, value), n) ==
      FreeCount(words, n) + (if id >= n then 0 else if value then -1 else 1)
  {
    if n > 0 {
      WrittenCount(words, id, value, n - 1);
      WrittenEffect(words, id, value, n - 1);
    }
  }

  /** If an identifier is available, one with a clear bit exists, and conversely. */
  lemma {:induction false} FreeExists(words: seq<nat>, n: nat)
    requires n <= SLOT_SIZE * |words|
    ensures FreeCount(words, n) > 0 <==> exists id: nat :: id < n && !InUse(words, id)
  {
    if n > 0 { FreeExists(words, n - 1); }
  }

  predicate AllInUse(words: seq<nat>, n: nat)
    requires n <= SLOT_SIZE * |words|
  {
    forall k: nat :: k < n ==> InUse(words, k)
  }

  /** The bit of an identifier. */
  lemma BitOf(words: seq<nat>, i: nat, j: nat)
    requires i < |words| && j < SLOT_SIZE
    ensures InUse(words, SLOT_SIZE * i + j) <==> BitAt(words[i], j)
  {
    SlotOf(i, j);
  }

  lemma FullBit(words: seq<nat>, i: nat, k: nat)
    requires i < |words| && words[i] == AllOnes(SLOT_SIZE) && SLOT_SIZE * i <= k < SLOT_SIZE * i + SLOT_SIZE
    ensures InUse(words, k)
  {
    hide AllOnes, BitAt, InUse;
    FullHasAllBits(SLOT_SIZE, k - SLOT_SIZE * i);
    BitOf(words, i, k - SLOT_SIZE * i);
  }

  /** All identifiers of a full word are in use. */
  lemma FullWord(words: seq<nat>, i: nat)
    requires i < |words| && words[i] == AllOnes(SLOT_SIZE) && AllInUse(words, SLOT_SIZE * i)
    ensures AllInUse(words, SLOT_SIZE * (i + 1))
  {
    hide InUse, AllOnes;
    forall k: nat | k < SLOT_SIZE * (i + 1) ensures InUse(words, k) {
      if k >= SLOT_SIZE * i { FullBit(words, i, k); }
    }
  }

  lemma SlotOf(i: nat, j: nat)
    requires j < SLOT_SIZE
    ensures (SLOT_SIZE * i + j) / SLOT_SIZE == i && (SLOT_SIZE * i + j) % SLOT_SIZE == j
  {
  }

  /** The leading bits of a word extend what is in use. */
  lemma InUseUpTo(words: seq<nat>, i: nat, j: nat)
    requires i < |words| && j < SLOT_SIZE && AllInUse(words, SLOT_SIZE * i)
    requires forall k :: 0 <= k < j ==> BitAt(words[i], k)
    ensures AllInUse(words, SLOT_SIZE * i + j)
  {
    forall k: nat | k < SLOT_SIZE * i + j ensures InUse(words, k) {
      if k >= SLOT_SIZE * i { BitOf(words, i, k - SLOT_SIZE * i); }
    }
  }

  /** Skips the leading ones of a word, as far as identifiers exist. */
  method FindBit(word: nat, base: nat, entries: nat) returns (j: nat)
    ensures j <= SLOT_SIZE && forall k :: 0 <= k < j ==> BitAt(word, k)
    ensures j < SLOT_SIZE && base + j < entries ==> !BitAt(word, j)
  {
    j := 0;
    while j < SLOT_SIZE && base + j < entries && BitAt(word, j)
      invariant j <= SLOT_SIZE && forall k :: 0 <= k < j ==> BitAt(word, k)
    {
      j := j + 1;
    }
  }

  lemma SlotsSuffice(entries: nat)
    ensures entries < SLOT_SIZE * ((entries + (SLOT_SIZE - entries % SLOT_SIZE)) / SLOT_SIZE)
  {
  }

  class IdentifierBitmap {
    const entries: nat
    const slots: nat
    const bitmap: array<nat>
    var available: nat

    /** Words hold 64 bits, no bit at or beyond `entries` is set, and `available` is the
        number of clear bits below it. */
    ghost predicate Valid()
      reads this, bitmap
    {
      && bitmap.Length == slots + 1 && entries < SLOT_SIZE * slots
      && ValidWords(bitmap[..])
      && (forall id: nat :: entries <= id < SLOT_SIZE * bitmap.Length ==> !InUse(bitmap[..], id))
      && available == FreeCount(bitmap[..], entries)
    }

    constructor (entries: nat)
      ensures Valid() && this.entries == entries && available == entries && fresh(bitmap)
      ensures forall id: nat :: id < entries ==> !InUse(bitmap[..], id)
    {
      this.entries := entries;
      this.available := entries;
      var n := (entries + (SLOT_SIZE - entries % SLOT_SIZE)) / SLOT_SIZE;
      SlotsSuffice(entries);
      hide InUse, FreeCount, BitAt, AllOnes;
      slots := n;
      bitmap := new nat[n + 1](_ => 0);
      new;
      EmptyCount(bitmap[..], entries);
    }

    /** Finds the first word with a clear bit, given that some identifier is free. */
    method FindWord(ghost free: nat) returns (i: nat)
      requires Valid() && free < entries && !InUse(bitmap[..], free)
      ensures i <= free / SLOT_SIZE && bitmap[i] != AllOnes(SLOT_SIZE)
      ensures AllInUse(bitmap[..], SLOT_SIZE * i)
    {
      ghost var words := bitmap[..];
      i := 0;
      while bitmap[i] == AllOnes(SLOT_SIZE)
        invariant i <= free / SLOT_SIZE && AllInUse(words, SLOT_SIZE * i)
        decreases bitmap.Length - i
      {
        FullWord(words, i);
        i := i + 1;
      }
    }

    /** Finds the least identifier that is free; the source's CHECK that it is below
        `entries` holds. */
    method FindFree(ghost free: nat) returns (id: nat)
      requires Valid() && free < entries && !InUse(bitmap[..], free)
      ensures id < entries && !InUse(bitmap[..], id)
      ensures AllInUse(bitmap[..], id)
    {
      hide InUse, FreeCount, BitAt, AllOnes;
      var i := FindWord(free);
      ghost var words := bitmap[..];
      ghost var clear := ClearBitExists(words[i], SLOT_SIZE);
      var j := FindBit(bitmap[i], i * SLOT_SIZE, entries);
      InUseUpTo(words, i, j);
      BitOf(words, i, j);
      id := i * SLOT_SIZE + j;
    }

    /** Returns the least free identifier, or -1 if there is none. */
    method AllocateID() returns (id: int)
      requires Valid()
      modifies this`available, bitmap
      ensures Valid()
      ensures id == -1 <==> forall k: nat :: k < entries ==> old(InUse(bitmap[..], k))
      ensures id == -1 ==> bitmap[..] == old(bitmap[..])
      ensures id != -1 ==>
        && 0 <= id < entries
        && !old(InUse(bitmap[..], id)) && (forall k: nat :: k < id ==> old(InUse(bitmap[..], k)))
        && bitmap[..] == Written(old(bitmap[..]), id, true)
    {
      id := -1;
      FreeExists(bitmap[..], entries);
      if available > 0 {
        ghost var free: nat :| free < entries && !InUse(bitmap[..], free);
        id := FindFree(free);
        Store(id, true);
      }
    }

    /** Sets or clears the bit of an identifier and counts it. */
    method Store(id: nat, value: bool)
      requires Valid() && id < entries && (value <==> !InUse(bitmap[..], id))
      modifies this`available, bitmap
      ensures Valid() && bitmap[..] == Written(old(bitmap[..]), id, value)
      ensures available == old(available) + (if value then -1 else 1)
    {
      ghost var words := bitmap[..];
      var i, j := id / SLOT_SIZE, id % SLOT_SIZE;
      WrittenCount(words, id, value, entries);
      WrittenValid(words, id, value);
      forall other: nat | entries <= other < SLOT_SIZE * |words| ensures !InUse(Written(words, id, value), other) {
        WrittenEffect(words, id, value, other);
      }
      bitmap[i] := if value then SetBit(bitmap[i], j) else ClearBit(bitmap[i], j);
      available := if value then available - 1 else available + 1;
      assert bitmap[..] == Written(words, id, value);
    }

    /** Allocates the given identifier; -1 if it is in use.  The source aborts for
        identifiers out of range. */
    method AllocateSpecificID(id: nat) returns (r: int)
      requires Valid() && id < entries
      modifies this`available, bitmap
      ensures Valid()
      ensures old(InUse(bitmap[..], id)) ==> r == -1 && bitmap[..] == old(bitmap[..])
      ensures !old(InUse(bitmap[..], id)) ==> r == id && bitmap[..] == Written(old(bitmap[..]), id, true)
    {
      if BitAt(bitmap[id / SLOT_SIZE], id % SLOT_SIZE) {
        return -1;
      }
      Store(id, true);
      r := id;
    }

    /** Makes an identifier that is in use available again; the source aborts if it is
        not in use. */
    method FreeID(id: nat)
      requires Valid() && id < entries && InUse(bitmap[..], id)
      modifies this`available, bitmap
      ensures Valid() && bitmap[..] == Written(old(bitmap[..]), id, false)
      ensures !InUse(bitmap[..], id)
    {
      WrittenEffect(bitmap[..], id, false, id);
      Store(id, false);
    }
  }

  lemma {:induction false} EmptyCount(words: seq<nat>, n: nat)
    requires n <= SLOT_SIZE * |words| && forall i :: 0 <= i < |words| ==> words[i] == 0
    ensures FreeCount(words, n) == n
    ensures forall id: nat :: id < SLOT_SIZE * |words| ==> !InUse(words, id)
  {
    forall id: nat | id < SLOT_SIZE * |words| ensures !InUse(words, id) { ZeroHasNoBits(id % SLOT_SIZE); }
    if n > 0 { EmptyCount(words, n - 1); }
  }
}
