/**
 The handlespace checksum: 16-bit words are added up in a 32-bit accumulator and
 folded into a 16-bit one's complement sum at the end (section 2 of RFC 1071).
 */
module HandlespaceChecksum {

  const WORD := 0x1_0000
  const ACCUMULATOR := 0x1_0000_0000

  type Accumulator = x: nat | x < ACCUMULATOR
  type Word = x: nat | x < WORD
  type Byte = x: nat | x < 256

  /** Unsigned 32-bit addition and subtraction, which wrap around. */
  function Add(a: Accumulator, b: Accumulator): Accumulator { (a + b) % ACCUMULATOR }

  function Sub(a: Accumulator, b: Accumulator): Accumulator { (a - b) % ACCUMULATOR }

  lemma SubUndoesAdd(a: Accumulator, b: Accumulator)
    ensures Sub(Add(a, b), b) == a && Add(Sub(a, b), b) == a
  {
  }

  // ---- Summing up words ----------------------------------------------------------

  /** The word that two bytes in memory make up on a machine of either byte order. */
  function WordOf(b0: Byte, b1: Byte, bigEndian: bool): Word {
    if bigEndian then 256 * b0 + b1 else b0 + 256 * b1
  }

  /** The exact sum of the words of a buffer; an odd last byte is padded with zero. */
  function WordSum(buffer: seq<Byte>, bigEndian: bool): nat {
    if buffer == [] then 0
    else if |buffer| == 1 then WordOf(buffer[0], 0, bigEndian)
    else WordOf(buffer[0], buffer[1], bigEndian) + WordSum(buffer[2..], bigEndian)
  }

  lemma WordSumStep(buffer: seq<Byte>, i: nat, bigEndian: bool)
    requires i < |buffer|
    ensures if i + 1 == |buffer|
      then WordSum(buffer[i..], bigEndian) == WordOf(buffer[i], 0, bigEndian)
      else WordSum(buffer[i..], bigEndian) == WordOf(buffer[i], buffer[i + 1], bigEndian) + WordSum(buffer[i + 2..], bigEndian)
  {
    if i + 1 < |buffer| { assert buffer[i..][2..] == buffer[i + 2..]; }
  }

  lemma AddWord(exact: nat, w: Word)
    ensures Add(exact % ACCUMULATOR, w) == (exact + w) % ACCUMULATOR
  {
    AddModulo(exact, w);
  }

  method Compute(sum: Accumulator, buffer: seq<Byte>, bigEndian: bool) returns (r: Accumulator)
    ensures r == (sum + WordSum(buffer, bigEndian)) % ACCUMULATOR
  {
    r := sum;
    var i := 0;
    ghost var exact: nat := sum;
    while |buffer| - i >= 2
      invariant 0 <= i <= |buffer|
      invariant r == exact % ACCUMULATOR && exact + WordSum(buffer[i..], bigEndian) == sum + WordSum(buffer, bigEndian)
    {
      var word := WordOf(buffer[i], buffer[i + 1], bigEndian);
      WordSumStep(buffer, i, bigEndian);
      AddWord(exact, word);
      r := Add(r, word);
      exact := exact + word;
      i := i + 2;
    }
    if i < |buffer| {
      WordSumStep(buffer, i, bigEndian);
      AddWord(exact, WordOf(buffer[i], 0, bigEndian));
      r := Add(r, WordOf(buffer[i], 0, bigEndian));
    }
  }

  // ---- Finishing -------------------------------------------------------------------

  /** One's complement reduction: the representative modulo 65535 in which only zero
      itself is represented by zero. */
  function Fold(sum: nat): (w: Word)
    ensures sum % 65535 == w % 65535
    ensures w == 0 <==> sum == 0
  {
    if sum == 0 then 0 else (sum - 1) % 65535 + 1
  }

  lemma FoldUnique(sum: nat, w: Word)
    requires sum % 65535 == w % 65535 && (w == 0 <==> sum == 0)
    ensures Fold(sum) == w
  {
  }

  method Finish(sum: Accumulator) returns (r: Word)
    ensures r == 65535 - Fold(sum)
  {
    var s := sum;
    while s / WORD != 0
      invariant 0 <= s < ACCUMULATOR
      invariant Fold(s) == Fold(sum)
      decreases s
    {
      var s' := s % WORD + s / WORD;
      assert s == WORD * (s / WORD) + s % WORD;
      assert s == s' + 65535 * (s / WORD);
      SameFold(s, s', s / WORD);
      s := s';
    }
    FoldUnique(s, s);
    r := 65535 - s;
  }

  lemma SameFold(a: nat, b: nat, k: nat)
    requires a == b + 65535 * k && (a == 0 <==> b == 0)
    ensures Fold(a) == Fold(b)
  {
    ModShift(b, k);
    FoldUnique(a, Fold(b));
  }

  lemma ModShift(b: nat, k: nat)
    ensures (b + 65535 * k) % 65535 == b % 65535
  {
  }

  // ---- Byte order ------------------------------------------------------------------

  function Swap(w: Word): Word { 256 * (w % 256) + w / 256 }

  /** The bytes that a little-endian machine weighs with 256. */
  function HighBytes(buffer: seq<Byte>): nat {
    if |buffer| < 2 then 0 else buffer[1] + HighBytes(buffer[2..])
  }

  /** The exact sums of the two byte orders determine each other modulo 65535. */
  lemma {:induction false} WordSumsRelate(buffer: seq<Byte>)
    ensures 256 * WordSum(buffer, false) == WordSum(buffer, true) + 65535 * HighBytes(buffer)
    ensures WordSum(buffer, false) == 0 <==> WordSum(buffer, true) == 0
  {
    if |buffer| >= 2 { WordSumsRelate(buffer[2..]); }
  }

  /** Folding commutes with swapping the bytes. */
  lemma FoldSwaps(little: nat, big: nat, k: nat)
    requires 256 * little == big + 65535 * k && (little == 0 <==> big == 0)
    ensures Fold(big) == Swap(Fold(little))
  {
    var w := Fold(little);
    var q := little / 65535 - w / 65535;
    assert little == w + 65535 * q;
    assert 256 * w == Swap(w) + 65535 * (w / 256);
    assert big == Swap(w) + 65535 * (256 * q - k + w / 256);
    ModCongruent(big, Swap(w), 256 * q - k + w / 256);
    FoldUnique(big, Swap(w));
  }

  lemma ModCongruent(a: nat, b: nat, d: int)
    requires a == b + 65535 * d
    ensures a % 65535 == b % 65535
  {
  }

  // ---- Pool elements ------------------------------------------------------------------

  const MAX_HANDLE_SIZE := 32

  /** What the checksum of a pool element covers: the handle of its pool, and its
      identifier as four bytes in network byte order. */
  datatype Element = Element(handle: seq<Byte>, identifier: seq<Byte>)

  predicate ValidElement(e: Element) {
    1 <= |e.handle| <= MAX_HANDLE_SIZE && |e.identifier| == 4
  }

  function ElementSum(e: Element, bigEndian: bool): nat {
    WordSum(e.handle, bigEndian) + WordSum(e.identifier, bigEndian)
  }

  lemma {:induction false} WordSumBound(buffer: seq<Byte>, bigEndian: bool)
    ensures WordSum(buffer, bigEndian) <= 65535 * ((|buffer| + 1) / 2)
  {
    if |buffer| >= 2 { WordSumBound(buffer[2..], bigEndian); }
  }

  lemma ElementSumBound(e: Element, bigEndian: bool)
    requires ValidElement(e)
    ensures ElementSum(e, bigEndian) <= 18 * 65535
  {
    WordSumBound(e.handle, bigEndian);
    WordSumBound(e.identifier, bigEndian);
  }

  method ComputeElementChecksum(e: Element, bigEndian: bool) returns (r: Accumulator)
    requires ValidElement(e)
    ensures r == ElementSum(e, bigEndian)
  {
    r := Compute(0, e.handle, bigEndian);
    r := Compute(r, e.identifier, bigEndian);
    ElementSumBound(e, bigEndian);
  }

  /** The bytes that the checksum of an element covers: its handle, filled up to whole words,
      and its identifier. */
  function Covered(e: Element): seq<Byte> {
    (if |e.handle| % 2 == 0 then e.handle else e.handle + [0]) + e.identifier
  }

  lemma {:induction false} WordSumConcat(a: seq<Byte>, b: seq<Byte>, bigEndian: bool)
    requires |a| % 2 == 0
    ensures WordSum(a + b, bigEndian) == WordSum(a, bigEndian) + WordSum(b, bigEndian)
  {
    if a == [] {
      assert a + b == b;
    } else {
      assert (a + b)[2..] == a[2..] + b;
      WordSumConcat(a[2..], b, bigEndian);
    }
  }

  lemma {:induction false} WordSumPadded(a: seq<Byte>, bigEndian: bool)
    requires |a| % 2 == 1
    ensures WordSum(a + [0], bigEndian) == WordSum(a, bigEndian)
  {
    if |a| == 1 {
      assert (a + [0])[2..] == [];
    } else {
      assert (a + [0])[2..] == a[2..] + [0];
      WordSumPadded(a[2..], bigEndian);
    }
  }

  /** The checksum of an element is that of one buffer with its handle and its identifier. */
  lemma ElementCoverage(e: Element, bigEndian: bool)
    ensures ElementSum(e, bigEndian) == WordSum(Covered(e), bigEndian)
  {
    if |e.handle| % 2 == 0 {
      WordSumConcat(e.handle, e.identifier, bigEndian);
    } else {
      WordSumPadded(e.handle, bigEndian);
      WordSumConcat(e.handle + [0], e.identifier, bigEndian);
    }
  }

  /** The weight of the byte at a position. */
  function Place(i: nat, bigEndian: bool): nat { if (i % 2 == 0) == bigEndian then 256 else 1 }

  lemma {:induction false} ByteCounts(a: seq<Byte>, i: nat, b: Byte, bigEndian: bool)
    requires i < |a|
    ensures WordSum(a[i := b], bigEndian) - WordSum(a, bigEndian) == Place(i, bigEndian) * (b - a[i])
  {
    if |a| == 1 {
    } else if i < 2 {
      assert a[i := b][2..] == a[2..];
    } else {
      assert a[i := b][2..] == a[2..][i - 2 := b];
      ByteCounts(a[2..], i - 2, b, bigEndian);
    }
  }

  /** Elements whose covered bytes differ in one place have different checksums, and what is
      finally compared differs as well, whatever else is summed up. */
  lemma OneByteShows(e: Element, f: Element, i: nat, bigEndian: bool, rest: nat)
    requires i < |Covered(e)| && |Covered(f)| == |Covered(e)|
    requires Covered(f) == Covered(e)[i := Covered(f)[i]] && Covered(f)[i] != Covered(e)[i]
    ensures ElementSum(e, bigEndian) != ElementSum(f, bigEndian)
    ensures Fold(rest + ElementSum(e, bigEndian)) != Fold(rest + ElementSum(f, bigEndian))
  {
    ElementCoverage(e, bigEndian);
    ElementCoverage(f, bigEndian);
    ByteCounts(Covered(e), i, Covered(f)[i], bigEndian);
    var a, b := ElementSum(e, bigEndian), ElementSum(f, bigEndian);
    assert a != b && -65535 < a - b < 65535;
    FoldTells(rest + a, rest + b);
  }

  lemma FoldTells(a: nat, b: nat)
    requires a != b && -65535 < a - b < 65535
    ensures Fold(a) != Fold(b)
  {
    assert a % 65535 != b % 65535;
  }

  /** Two elements of one pool whose identifiers differ in one byte. */
  lemma IdentifierShows(handle: seq<Byte>, a: seq<Byte>, i: nat, b: Byte, bigEndian: bool, rest: nat)
    requires |a| == 4 && i < 4 && b != a[i]
    ensures var e, f := Element(handle, a), Element(handle, a[i := b]);
      && ElementSum(e, bigEndian) != ElementSum(f, bigEndian)
      && Fold(rest + ElementSum(e, bigEndian)) != Fold(rest + ElementSum(f, bigEndian))
  {
    var e, f := Element(handle, a), Element(handle, a[i := b]);
    var k := |Covered(e)| - 4 + i;
    assert Covered(f) == Covered(e)[k := b];
    OneByteShows(e, f, k, bigEndian, rest);
  }

  /** Handle "A" and identifier 1, on a machine of either byte order. */
  lemma SampleChecksum()
    ensures ElementSum(Element([65], [0, 0, 0, 1]), false) == 321
    ensures ElementSum(Element([65], [0, 0, 0, 1]), true) == 16641
  {
    var id: seq<Byte> := [0, 0, 0, 1];
    assert id[2..] == [0, 1] && id[2..][2..] == [];
    assert WordSum(id[2..][2..], false) == 0 && WordSum(id[2..][2..], true) == 0;
    assert WordSum(id[2..], false) == 256 && WordSum(id[2..], true) == 1;
  }

  /** The exact sum over a list of elements, and the one that the accumulator holds. */
  function TotalSum(es: seq<Element>, bigEndian: bool): nat {
    if es == [] then 0 else ElementSum(es[0], bigEndian) + TotalSum(es[1..], bigEndian)
  }

  function Accumulated(es: seq<Element>, bigEndian: bool): Accumulator {
    if es == [] then 0
    else Add(ElementSum(es[0], bigEndian) % ACCUMULATOR, Accumulated(es[1..], bigEndian))
  }

  lemma {:induction false} AccumulatedIsTotal(es: seq<Element>, bigEndian: bool)
    ensures Accumulated(es, bigEndian) == TotalSum(es, bigEndian) % ACCUMULATOR
  {
    if es != [] {
      AccumulatedIsTotal(es[1..], bigEndian);
      AddModulo(ElementSum(es[0], bigEndian), TotalSum(es[1..], bigEndian));
    }
  }

  lemma AddModulo(a: nat, b: nat)
    ensures Add(a % ACCUMULATOR, b % ACCUMULATOR) == (a + b) % ACCUMULATOR
  {
  }

  lemma {:induction false} TotalSumRemove(es: seq<Element>, i: nat, bigEndian: bool)
    requires i < |es|
    ensures TotalSum(es, bigEndian) == ElementSum(es[i], bigEndian) + TotalSum(es[..i] + es[i + 1..], bigEndian)
  {
    var rest := es[..i] + es[i + 1..];
    if i == 0 {
      assert rest == es[1..];
    } else {
      TotalSumRemove(es[1..], i - 1, bigEndian);
      assert rest[1..] == es[1..][..i - 1] + es[1..][i..];
    }
  }

  lemma SameTail<T>(es: seq<T>, fs: seq<T>, i: nat)
    requires multiset(es) == multiset(fs) && es != [] && i < |fs| && fs[i] == es[0]
    ensures multiset(es[1..]) == multiset(fs[..i] + fs[i + 1..])
  {
    var x, a, b := es[0], multiset(fs[..i]), multiset(fs[i + 1..]);
    assert fs == fs[..i] + ([x] + fs[i + 1..]);
    assert multiset(fs) == a + (multiset{x} + b);
    assert es == [x] + es[1..];
    assert multiset(es[1..]) == multiset(es) - multiset{x} == a + b;
  }

  lemma {:induction false} TotalSumPermutes(es: seq<Element>, fs: seq<Element>, bigEndian: bool)
    requires multiset(es) == multiset(fs)
    ensures TotalSum(es, bigEndian) == TotalSum(fs, bigEndian)
  {
    if es == [] {
      assert |multiset(fs)| == 0;
    } else {
      assert es[0] in multiset(es);
      assert es[0] in fs;
      var i :| 0 <= i < |fs| && fs[i] == es[0];
      TotalSumRemove(fs, i, bigEndian);
      var rest := fs[..i] + fs[i + 1..];
      SameTail(es, fs, i);
      TotalSumPermutes(es[1..], rest, bigEndian);
    }
  }

  /** Summation order is irrelevant. */
  lemma OrderIrrelevant(es: seq<Element>, fs: seq<Element>, bigEndian: bool)
    requires multiset(es) == multiset(fs)
    ensures Accumulated(es, bigEndian) == Accumulated(fs, bigEndian)
  {
    AccumulatedIsTotal(es, bigEndian);
    AccumulatedIsTotal(fs, bigEndian);
    TotalSumPermutes(es, fs, bigEndian);
  }

  lemma {:induction false} TotalsRelate(es: seq<Element>) returns (k: nat)
    ensures 256 * TotalSum(es, false) == TotalSum(es, true) + 65535 * k
    ensures TotalSum(es, false) == 0 <==> TotalSum(es, true) == 0
  {
    if es == [] {
      k := 0;
    } else {
      k := TotalsRelate(es[1..]);
      WordSumsRelate(es[0].handle);
      WordSumsRelate(es[0].identifier);
      k := k + HighBytes(es[0].handle) + HighBytes(es[0].identifier);
    }
  }

  lemma {:induction false} TotalSumBound(es: seq<Element>, bigEndian: bool)
    requires forall e :: e in es ==> ValidElement(e)
    ensures TotalSum(es, bigEndian) <= 18 * 65535 * |es|
  {
    if es != [] {
      assert es[0] in es;
      ElementSumBound(es[0], bigEndian);
      TotalSumBound(es[1..], bigEndian);
    }
  }

  /** Up to 3640 elements cannot make the accumulator wrap around, in any order. */
  lemma NoWrapAround(es: seq<Element>, bigEndian: bool)
    requires |es| <= 3640 && forall e :: e in es ==> ValidElement(e)
    ensures Accumulated(es, bigEndian) == TotalSum(es, bigEndian)
  {
    AccumulatedIsTotal(es, bigEndian);
    TotalSumBound(es, bigEndian);
  }

  /** Byte order independence: registrars of either byte order finish with the same
      two bytes in memory, as long as the accumulator does not wrap around. */
  lemma ByteOrderIndependent(es: seq<Element>)
    requires |es| <= 3640 && forall e :: e in es ==> ValidElement(e)
    ensures 65535 - Fold(Accumulated(es, true)) == Swap(65535 - Fold(Accumulated(es, false)))
  {
    NoWrapAround(es, true);
    NoWrapAround(es, false);
    var k := TotalsRelate(es);
    FoldSwaps(TotalSum(es, false), TotalSum(es, true), k);
    SwapComplement(Fold(Accumulated(es, false)));
  }

  lemma SwapComplement(w: Word)
    ensures 65535 - Swap(w) == Swap(65535 - w)
  {
    assert 65535 - w == 256 * (255 - w / 256) + (255 - w % 256);
  }
}
