/**
 How registrars agree on the home of a pool element without talking to each
 other: the registrar whose identifier, combined by exclusive or with the element's
 identifier, is largest keeps the element.
 */
module HomeSelection {
  import opened Wrappers
  import opened PeerList
  import IdentifierBitmap

  type Identifier = nat

  function Identifiers(peers: seq<Peer>): (ids: seq<Identifier>)
    ensures |ids| == |peers| && forall i :: 0 <= i < |peers| ==> ids[i] == peers[i].id
  {
    seq(|peers|, i requires 0 <= i < |peers| => peers[i].id)
  }

  /** Bitwise exclusive or. */
  function Xor(a: nat, b: nat): nat
    decreases a + b
  {
    if a == 0 && b == 0 then 0
    else 2 * Xor(a / 2, b / 2) + (if a % 2 == b % 2 then 0 else 1)
  }

  lemma {:induction false} XorCancels(a: nat, b: nat)
    ensures Xor(Xor(a, b), b) == a
    decreases a + b
  {
    if a > 0 || b > 0 {
      XorCancels(a / 2, b / 2);
      var x := Xor(a, b);
      assert x / 2 == Xor(a / 2, b / 2) && x % 2 == if a % 2 == b % 2 then 0 else 1;
    }
  }

  /** Each bit tells whether the two bits differ. */
  lemma {:induction false} XorBits(a: nat, b: nat, i: nat)
    ensures IdentifierBitmap.BitAt(Xor(a, b), i) <==> IdentifierBitmap.BitAt(a, i) != IdentifierBitmap.BitAt(b, i)
    decreases a + b
  {
    if a == 0 && b == 0 {
      IdentifierBitmap.ZeroHasNoBits(i);
    } else {
      var x := Xor(a, b);
      assert x / 2 == Xor(a / 2, b / 2) && x % 2 == if a % 2 == b % 2 then 0 else 1;
      if i > 0 { XorBits(a / 2, b / 2, i - 1); }
    }
  }

  /** `best` is the listed peer with the largest metric if that beats the own one. */
  predicate UsefulPeer(own: Identifier, peers: seq<Identifier>, pe: Identifier, best: Option<Identifier>) {
    && (best.None? ==> forall p :: p in peers && p != UNDEFINED ==> Xor(p, pe) <= Xor(own, pe))
    && (best.Some? ==>
          && best.value in peers && best.value != UNDEFINED
          && Xor(best.value, pe) > Xor(own, pe)
          && forall p :: p in peers && p != UNDEFINED ==> Xor(p, pe) <= Xor(best.value, pe))
  }

  /** Scans the peer list in index order.  The own identifier is the candidate to
      beat; entries without identifier do not take part. */
  method GetUsefulPeerForPE(own: Identifier, peers: seq<Peer>, pe: Identifier) returns (best: Option<Identifier>)
    ensures UsefulPeer(own, Identifiers(peers), pe, best)
  {
    best := None;
    var bestMetric := Xor(own, pe);
    var i := 0;
    while i < |peers|
      invariant 0 <= i <= |peers|
      invariant bestMetric == Xor(if best.None? then own else best.value, pe)
      invariant best.Some? ==> best.value in Identifiers(peers) && best.value != UNDEFINED && bestMetric > Xor(own, pe)
      invariant forall j :: 0 <= j < i && peers[j].id != UNDEFINED ==> Xor(peers[j].id, pe) <= bestMetric
    {
      var metric := Xor(peers[i].id, pe);
      if peers[i].id != UNDEFINED && metric > bestMetric {
        assert Identifiers(peers)[i] == peers[i].id;
        best := Some(peers[i].id);
        bestMetric := metric;
      }
      i := i + 1;
    }
  }

  lemma MetricInjective(a: Identifier, b: Identifier, pe: Identifier)
    requires Xor(a, pe) == Xor(b, pe)
    ensures a == b
  {
    XorCancels(a, pe);
    XorCancels(b, pe);
  }

  /** The registrar that keeps the element. */
  predicate IsHome(registrars: set<Identifier>, pe: Identifier, home: Identifier) {
    home in registrars && forall r :: r in registrars ==> Xor(r, pe) <= Xor(home, pe)
  }

  lemma {:induction false} HomeExists(registrars: set<Identifier>, pe: Identifier) returns (home: Identifier)
    requires registrars != {}
    ensures IsHome(registrars, pe, home)
  {
    var r :| r in registrars;
    var rest := registrars - {r};
    if rest == {} {
      home := r;
    } else {
      var h := HomeExists(rest, pe);
      home := if Xor(r, pe) > Xor(h, pe) then r else h;
    }
    forall x | x in registrars ensures Xor(x, pe) <= Xor(home, pe) { assert x == r || x in rest; }
  }

  /** Peer lists are complete: each registrar lists all others, and besides them
      at most entries whose identifier is not known. */
  predicate Complete(registrars: set<Identifier>, listOf: map<Identifier, seq<Identifier>>) {
    && listOf.Keys == registrars
    && (forall r, p :: r in registrars && p in listOf[r] ==> p == UNDEFINED || (p in registrars && p != r))
    && (forall r, p :: r in registrars && p in registrars && p != r ==> p in listOf[r])
  }

  /** Registrar agreement: there is one home such that it alone keeps the element and
      every other registrar names it, so that one move settles the element. */
  lemma RegistrarsAgree(registrars: set<Identifier>, listOf: map<Identifier, seq<Identifier>>,
                        pe: Identifier, answers: map<Identifier, Option<Identifier>>)
      returns (home: Identifier)
    requires registrars != {} && UNDEFINED !in registrars && Complete(registrars, listOf)
    requires answers.Keys == registrars
    requires forall r :: r in registrars ==> UsefulPeer(r, listOf[r], pe, answers[r])
    ensures IsHome(registrars, pe, home)
    ensures forall other :: IsHome(registrars, pe, other) ==> other == home
    ensures forall r :: r in registrars ==> answers[r] == if r == home then None else Some(home)
  {
    home := HomeExists(registrars, pe);
    forall other | IsHome(registrars, pe, other) ensures other == home {
      MetricInjective(other, home, pe);
    }
    forall r | r in registrars ensures answers[r] == if r == home then None else Some(home) {
      AnswerIsHome(registrars, listOf[r], r, pe, answers[r], home);
    }
  }

  lemma AnswerIsHome(registrars: set<Identifier>, peers: seq<Identifier>, r: Identifier,
                     pe: Identifier, answer: Option<Identifier>, home: Identifier)
    requires r in registrars && UNDEFINED !in registrars && IsHome(registrars, pe, home)
    requires forall p :: p in peers ==> p == UNDEFINED || (p in registrars && p != r)
    requires forall p :: p in registrars && p != r ==> p in peers
    requires UsefulPeer(r, peers, pe, answer)
    ensures answer == if r == home then None else Some(home)
  {
    if r != home && answer.None? {
      MetricInjective(r, home, pe);
    } else if r != home {
      MetricInjective(answer.value, home, pe);
    }
  }
}
