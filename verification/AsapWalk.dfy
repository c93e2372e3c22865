/**
 What a pass over the queue, a response, a timeout and a change of the home registrar do to
 each request: which ones are transmitted and when their responses are due, which ones are
 given up, and in which order the queue is served.
 */
module AsapWalk {
  import opened Wrappers
  import opened AsapPipeline
  import opened AsapRuns
  import opened AsapTimer

  // ---- What is transmitted ----------------------------------------------------------------------------

  /** A request that goes out as the n-th one of a pass. */
  function Sent(p: PassInput, m: Message, n: nat): Message {
    if m.responseExpected
    then m.(trials := m.trials + 1, deadline := p.clock(n) + p.cfg.responseTimeout, needsScheduling := true)
    else m.(trials := m.trials + 1)
  }

  /** How many of the eligible requests go out before a transmission fails. */
  function SentBefore(p: PassInput, eligible: nat, done: nat): nat
    requires p.failAt.Some? ==> done <= p.failAt.value
  {
    if p.failAt.Some? && p.failAt.value - done < eligible then p.failAt.value - done else eligible
  }

  lemma SentStep(p: PassInput, rest: seq<Message>, done: nat, last: Option<nat>)
    requires p.connected
    ensures rest == [] ==> Transmit(p, rest, done, last).sent == []
    ensures rest != [] ==>
      var fate, m := FateOf(p, rest[0], done), Tried(p, rest[0], done);
      Transmit(p, rest, done, last).sent ==
        if fate == SendFails then []
        else (if fate == Expires then [] else [m]) +
             Transmit(p, rest[1..], NextDone(fate, done), NextLast(fate, m, last)).sent
  {
  }

  lemma {:induction false} SentAre(p: PassInput, rest: seq<Message>, done: nat, last: Option<nat>, n: nat)
    requires p.connected && (p.failAt.Some? ==> done <= p.failAt.value)
    ensures var sent, eligible := Transmit(p, rest, done, last).sent, Eligible(p.cfg, rest);
      && |sent| == SentBefore(p, |eligible|, done)
      && (n < |sent| ==> sent[n] == Sent(p, eligible[n], done + n))
    decreases |rest|
  {
    hide Transmit;
    SentStep(p, rest, done, last);
    if rest != [] {
      var fate, m := FateOf(p, rest[0], done), Tried(p, rest[0], done);
      if fate == Expires {
        SentAre(p, rest[1..], done, last, n);
      } else if fate != SendFails {
        SentAre(p, rest[1..], done + 1, NextLast(fate, m, last), if n > 0 then n - 1 else 0);
      }
    }
  }

  /** The requests that a pass over a connection transmits are those that have trials left,
      in the order of the queue, up to the transmission that fails; and the response to the
      n-th one of them, if one is expected, is due a response timeout after the time that is
      read for it. */
  lemma TransmissionsAndDeadlines(p: PassInput, rest: seq<Message>, last: Option<nat>, n: nat)
    requires p.connected && n < |Transmit(p, rest, 0, last).sent|
    ensures var m, eligible := Transmit(p, rest, 0, last).sent[n], Eligible(p.cfg, rest);
      && |Transmit(p, rest, 0, last).sent| == SentBefore(p, |eligible|, 0)
      && m.id == eligible[n].id && m.kind == eligible[n].kind && m.hasReplyPort == eligible[n].hasReplyPort
      && m.trials == eligible[n].trials + 1
      && (m.responseExpected ==> m.deadline == p.clock(n) + p.cfg.responseTimeout)
  {
    SentAre(p, rest, 0, last, n);
  }

  function FirstExpecting(ms: seq<Message>): (n: nat)
    ensures n <= |ms| && (n < |ms| ==> ms[n].responseExpected) && forall i :: 0 <= i < n ==> !ms[i].responseExpected
  {
    if ms == [] || ms[0].responseExpected then 0 else 1 + FirstExpecting(ms[1..])
  }

  lemma {:induction false} ExpectingFirst(ms: seq<Message>)
    ensures var n := FirstExpecting(ms); if n == |ms| then Expecting(ms) == [] else Expecting(ms) != [] && Expecting(ms)[0] == ms[n]
  {
    if ms != [] && !ms[0].responseExpected { ExpectingFirst(ms[1..]); }
  }

  lemma DeadlineOf(p: PassInput, rest: seq<Message>, last: Option<nat>, n: nat)
    requires p.connected && n < |Transmit(p, rest, 0, last).sent| && Transmit(p, rest, 0, last).sent[n].responseExpected
    ensures Transmit(p, rest, 0, last).sent[n].deadline == p.clock(n) + p.cfg.responseTimeout
  {
    SentAre(p, rest, 0, last, n);
  }

  lemma HeadOfKept(w: Walk, last: Option<nat>)
    requires SentAndKept(w, last) && !w.failed
    ensures var n := FirstExpecting(w.sent); if n == |w.sent| then w.kept == [] else w.kept != [] && w.kept[0] == w.sent[n]
  {
    ExpectingFirst(w.sent);
  }

  lemma FirstDeadline(p: PassInput, rest: seq<Message>, last: Option<nat>)
    requires p.connected && !Transmit(p, rest, 0, last).failed
    ensures var w := Transmit(p, rest, 0, last);
      FirstUnscheduled(w.kept) ==
        if FirstExpecting(w.sent) == |w.sent| then None else Some(p.clock(FirstExpecting(w.sent)) + p.cfg.responseTimeout)
  {
    hide Transmit, FirstUnscheduled, SentAndKept, FirstExpecting;
    var w := Transmit(p, rest, 0, last);
    TransmitSends(p, rest, 0, last);
    TransmitDeadline(p, rest, 0, last);
    HeadOfKept(w, last);
    if FirstExpecting(w.sent) < |w.sent| { DeadlineOf(p, rest, last, FirstExpecting(w.sent)); }
  }

  /** A pass that begins with no timer running arms it for the first response that it makes
      the client wait for: a response timeout after that request was transmitted. */
  lemma TimerIsArmed(cfg: Config, c: Client, e: Event)
    requires e.Pass? && AllScheduled(c.queue) && c.timer.None?
    requires Joined(c, e).connected && !WalkOf(cfg, c, e).failed
    ensures var sent := WalkOf(cfg, c, e).sent;
      QueuePass(cfg, c, e.found, e.ownElements, e.failAt, e.clock).0.timer ==
        if FirstExpecting(sent) == |sent| then None else Some(e.clock(FirstExpecting(sent)) + cfg.responseTimeout)
  {
    PassTimer(cfg, c, e);
    hide QueuePass, Transmit, FirstUnscheduled, FirstExpecting, AllScheduled;
    FirstDeadline(PassInput(cfg, true, e.failAt, e.clock), c.queue[SentCount(c)..], Joined(c, e).last);
  }

  // ---- What leaves the queue ----------------------------------------------------------------------------

  /** Why a request leaves the queue in a pass: it has no trials left, or it was sent and
      nobody waits for a response. */
  predicate Leaves(p: PassInput, m: Message, r: Resolution) {
    if m.trials >= p.cfg.maxTrials then r == Discarded(m.id, if p.connected then TimedOut else NoRegistrar)
    else p.connected && !m.responseExpected && r == Dispatched(m.id)
  }

  lemma {:induction false} ResolvedLeft(p: PassInput, rest: seq<Message>, done: nat, last: Option<nat>, r: Resolution)
    requires r in Transmit(p, rest, done, last).resolved
    ensures exists m :: m in rest && Leaves(p, m, r)
    decreases |rest|
  {
    var fate, m := FateOf(p, rest[0], done), Tried(p, rest[0], done);
    var w := Transmit(p, rest[1..], NextDone(fate, done), NextLast(fate, m, last));
    if fate != SendFails && r in w.resolved {
      ResolvedLeft(p, rest[1..], NextDone(fate, done), NextLast(fate, m, last), r);
      var x :| x in rest[1..] && Leaves(p, x, r);
      assert x in rest;
    } else {
      assert rest[0] in rest && Leaves(p, rest[0], r);
    }
  }

  lemma {:induction false} LeftResolved(p: PassInput, rest: seq<Message>, done: nat, last: Option<nat>, m: Message, r: Resolution)
    requires m in rest && Leaves(p, m, r) && !Transmit(p, rest, done, last).failed
    ensures r in Transmit(p, rest, done, last).resolved
    decreases |rest|
  {
    var fate, t := FateOf(p, rest[0], done), Tried(p, rest[0], done);
    if m != rest[0] {
      assert m in rest[1..];
      LeftResolved(p, rest[1..], NextDone(fate, done), NextLast(fate, t, last), m, r);
    }
  }

  /** A pass gives up exactly the requests that have used up their trials, for the reason
      that there was no registrar or that it did not answer, and is done with exactly those
      that it sent without expecting a response. */
  lemma ResolvedIff(p: PassInput, rest: seq<Message>, last: Option<nat>, r: Resolution)
    ensures var w := Transmit(p, rest, 0, last);
      && (r in w.resolved ==> exists m :: m in rest && Leaves(p, m, r))
      && (!w.failed && (exists m :: m in rest && Leaves(p, m, r)) ==> r in w.resolved)
  {
    var w := Transmit(p, rest, 0, last);
    if r in w.resolved { ResolvedLeft(p, rest, 0, last, r); }
    if !w.failed && exists m :: m in rest && Leaves(p, m, r) {
      var m :| m in rest && Leaves(p, m, r);
      LeftResolved(p, rest, 0, last, m, r);
    }
  }

  /** Without a connection the others just count one more trial. */
  lemma {:induction false} OfflineCounts(p: PassInput, rest: seq<Message>, done: nat, last: Option<nat>, i: nat)
    requires !p.connected
    ensures var kept, eligible := Transmit(p, rest, done, last).kept, Eligible(p.cfg, rest);
      |kept| == |eligible| && (i < |kept| ==> kept[i] == eligible[i].(trials := eligible[i].trials + 1))
    decreases |rest|
  {
    if rest != [] {
      var fate, m := FateOf(p, rest[0], done), Tried(p, rest[0], done);
      OfflineCounts(p, rest[1..], done, last, if fate == Expires || i == 0 then i else i - 1);
      if fate != Expires && i == 0 { OfflineCounts(p, rest[1..], done, last, 0); }
    }
  }

  lemma EligibleUpTo(cfg: Config, rest: seq<Message>, i: nat)
    requires i < |rest|
    ensures |Eligible(cfg, rest[..i + 1])| == |Eligible(cfg, rest[1..][..i])| + if rest[0].trials < cfg.maxTrials then 1 else 0
  {
    assert rest[..i + 1][0] == rest[0] && rest[..i + 1][1..] == rest[1..][..i];
  }

  predicate KeptBefore(w: Walk, tail: seq<Message>) { w.kept == Expecting(w.sent) + tail }

  lemma PrependBefore(p: PassInput, fate: Fate, m: Message, w: Walk, tail: seq<Message>)
    requires KeptBefore(w, tail)
    requires fate == Expires || (fate == GoesOneWay && !m.responseExpected) || (fate == AwaitsResponse && m.responseExpected)
    ensures KeptBefore(Prepend(p, fate, m, w), tail)
  {
    assert ([m] + w.sent)[1..] == w.sent;
  }

  lemma {:induction false} OnlineFailure(p: PassInput, rest: seq<Message>, done: nat, last: Option<nat>)
    requires Transmit(p, rest, done, last).failed
    ensures p.connected && rest != []
    decreases |rest|
  {
    var fate, m := FateOf(p, rest[0], done), Tried(p, rest[0], done);
    if fate != SendFails { OnlineFailure(p, rest[1..], NextDone(fate, done), NextLast(fate, m, last)); }
  }

  /** The transmission of this very request fails. */
  lemma FailsNow(p: PassInput, rest: seq<Message>, done: nat, last: Option<nat>)
    requires rest != [] && FateOf(p, rest[0], done) == SendFails
    ensures rest[0].trials < p.cfg.maxTrials && p.failAt == Some(done + |Eligible(p.cfg, rest[..0])|)
    ensures KeptBefore(Transmit(p, rest, done, last), [rest[0].(trials := rest[0].trials + 1)] + rest[1..])
  {
  }

  /** One of the later ones fails. */
  lemma FailsLater(p: PassInput, rest: seq<Message>, done: nat, last: Option<nat>, tail: seq<Message>)
    requires p.connected && rest != [] && FateOf(p, rest[0], done) != SendFails
    ensures var fate, m := FateOf(p, rest[0], done), Tried(p, rest[0], done);
      var w := Transmit(p, rest[1..], NextDone(fate, done), NextLast(fate, m, last));
      && NextDone(fate, done) == (if rest[0].trials < p.cfg.maxTrials then done + 1 else done)
      && (Transmit(p, rest, done, last).failed <==> w.failed)
      && (KeptBefore(w, tail) ==> KeptBefore(Transmit(p, rest, done, last), tail))
  {
    var fate, m := FateOf(p, rest[0], done), Tried(p, rest[0], done);
    var w := Transmit(p, rest[1..], NextDone(fate, done), NextLast(fate, m, last));
    if KeptBefore(w, tail) { PrependBefore(p, fate, m, w, tail); }
  }

  /** A transmission that fails ends the pass: its request has used one trial and stays, behind
      those that wait for a response, and all that follow it stay untouched. */
  lemma {:induction false} FailureKeeps(p: PassInput, rest: seq<Message>, done: nat, last: Option<nat>) returns (i: nat)
    requires Transmit(p, rest, done, last).failed
    ensures i < |rest| && rest[i].trials < p.cfg.maxTrials && p.failAt == Some(done + |Eligible(p.cfg, rest[..i])|)
    ensures KeptBefore(Transmit(p, rest, done, last), [rest[i].(trials := rest[i].trials + 1)] + rest[i + 1..])
    decreases |rest|
  {
    hide Transmit, FateOf, Tried, NextDone, NextLast, Eligible, KeptBefore;
    OnlineFailure(p, rest, done, last);
    var fate, m := FateOf(p, rest[0], done), Tried(p, rest[0], done);
    if fate == SendFails {
      i := 0;
      FailsNow(p, rest, done, last);
    } else {
      FailsLater(p, rest, done, last, []);
      var k := FailureKeeps(p, rest[1..], NextDone(fate, done), NextLast(fate, m, last));
      i := k + 1;
      EligibleUpTo(p.cfg, rest, k);
      assert rest[1..][k] == rest[i] && rest[1..][k + 1..] == rest[i + 1..];
      FailsLater(p, rest, done, last, [rest[i].(trials := rest[i].trials + 1)] + rest[i + 1..]);
    }
  }

  // ---- The connection -----------------------------------------------------------------------------------------

  /** When there is a connection after a pass: there was one, or something called for one
      and a registrar was found; and no transmission failed. */
  lemma PassConnection(cfg: Config, c: Client, e: Event)
    requires e.Pass? && AllScheduled(c.queue)
    ensures var c' := QueuePass(cfg, c, e.found, e.ownElements, e.failAt, e.clock).0;
      c'.connected <==>
        && (c.connected || (e.found && (SentCount(c) < |c.queue| || e.ownElements)))
        && !(e.failAt.Some? && e.failAt.value < |Eligible(cfg, c.queue[SentCount(c)..])|)
  {
    var p := PassInput(cfg, Joined(c, e).connected, e.failAt, e.clock);
    PassShape(cfg, c, e);
    if p.connected {
      assert AllScheduled(c.queue[SentCount(c)..]);
      TransmitFailure(p, c.queue[SentCount(c)..], 0, Joined(c, e).last);
    }
  }

  /** A response closes the connection exactly if nothing was asked, if it is not of the type
      that the request at the head of the queue calls for, or if it tells a registration that
      nobody waits for that its addresses cannot be used. */
  lemma ResponseCloses(c: Client, r: Response)
    requires c.connected
    ensures var (c', effects) := HandleResponse(c, r);
      var closes := c.queue == [] || !Matches(r.kind, c.queue[0].kind) ||
                    (c.queue[0].kind == Registration && !c.queue[0].hasReplyPort && r.noUsableAddresses);
      effects.dropped == closes && c'.connected == !closes
  {
  }

  /** After a timeout the connection is gone, and every request is queued to be transmitted
      again, in the same order. */
  lemma TimeoutRequeues(c: Client)
    ensures var c' := HandleTimeout(c).0;
      c'.queue == c.queue && !c'.connected && SentCount(c') == 0 && c'.timer.None?
  {
  }

  /** The same holds after the home registrar was replaced, except that there is a connection. */
  lemma NewHomeRequeues(c: Client)
    requires CursorValid(c)
    ensures var c' := ReplaceHome(c).0;
      c'.queue == c.queue && c'.connected && SentCount(c') == 0 && (c.connected ==> c'.timer.None?)
  {
  }

  // ---- The order of the queue ---------------------------------------------------------------------------------

  predicate InOrder(queue: seq<Message>, next: nat) {
    queue == [] ||
    (queue[0].id < next && (forall x :: x in queue[1..] ==> queue[0].id < x.id) && InOrder(queue[1..], next))
  }

  lemma ConsInOrder(m: Message, ms: seq<Message>, next: nat)
    requires InOrder(ms, next) && m.id < next && forall x :: x in ms ==> m.id < x.id
    ensures InOrder([m] + ms, next)
  {
    assert ([m] + ms)[1..] == ms;
  }

  /** What a walk keeps are some of the requests, in their order. */
  lemma {:induction false} KeptInOrder(p: PassInput, rest: seq<Message>, done: nat, last: Option<nat>, next: nat, low: int)
    requires InOrder(rest, next) && forall x :: x in rest ==> low < x.id
    ensures var kept := Transmit(p, rest, done, last).kept;
      InOrder(kept, next) && forall x :: x in kept ==> low < x.id
    decreases |rest|
  {
    if rest != [] {
      var fate, m := FateOf(p, rest[0], done), Tried(p, rest[0], done);
      assert rest[0] in rest && m.id == rest[0].id;
      if fate == SendFails {
        ConsInOrder(m, rest[1..], next);
      } else {
        KeptInOrder(p, rest[1..], NextDone(fate, done), NextLast(fate, m, last), next, m.id);
        ConsInOrder(m, Transmit(p, rest[1..], NextDone(fate, done), NextLast(fate, m, last)).kept, next);
      }
    }
  }

  lemma {:induction false} ConcatInOrder(a: seq<Message>, b: seq<Message>, next: nat)
    requires InOrder(a, next) && InOrder(b, next) && forall x, y :: x in a && y in b ==> x.id < y.id
    ensures InOrder(a + b, next)
    decreases |a|
  {
    if a == [] {
      assert a + b == b;
    } else {
      assert a[0] in a && (a + b)[1..] == a[1..] + b;
      ConcatInOrder(a[1..], b, next);
    }
  }

  lemma {:induction false} SplitInOrder(queue: seq<Message>, i: nat, next: nat)
    requires InOrder(queue, next) && i <= |queue|
    ensures InOrder(queue[..i], next) && InOrder(queue[i..], next)
    ensures forall x, y :: x in queue[..i] && y in queue[i..] ==> x.id < y.id
    decreases |queue|
  {
    if i == 0 {
      assert queue[..0] == [] && queue[0..] == queue;
    } else {
      SplitInOrder(queue[1..], i - 1, next);
      assert queue[..i] == [queue[0]] + queue[1..][..i - 1] && queue[i..] == queue[1..][i - 1..];
      assert forall x :: x in queue[1..][..i - 1] || x in queue[1..][i - 1..] ==> x in queue[1..];
      ConsInOrder(queue[0], queue[1..][..i - 1], next);
    }
  }

  lemma {:induction false} ClearedInOrder(queue: seq<Message>, next: nat)
    requires InOrder(queue, next)
    ensures InOrder(ClearFlags(queue), next)
    ensures forall x :: x in ClearFlags(queue) ==> exists y :: y in queue && x.id == y.id
  {
    if queue != [] {
      ClearedInOrder(queue[1..], next);
      var m := queue[0].(needsScheduling := false);
      var tail := ClearFlags(queue[1..]);
      forall x | x in tail ensures m.id < x.id {
        var y :| y in queue[1..] && x.id == y.id;
      }
      ConsInOrder(m, tail, next);
      forall x | x in [m] + tail ensures exists y :: y in queue && x.id == y.id {
        if x == m {
          assert queue[0] in queue && x.id == queue[0].id;
        } else {
          var y :| y in queue[1..] && x.id == y.id;
          assert y in queue;
        }
      }
    }
  }

  lemma {:induction false} InOrderAt(queue: seq<Message>, next: nat, i: nat, j: nat)
    requires InOrder(queue, next) && i < j < |queue|
    ensures queue[i].id < queue[j].id
  {
    if i == 0 { assert queue[j] in queue[1..]; } else { InOrderAt(queue[1..], next, i - 1, j - 1); }
  }

  lemma {:induction false} InOrderLater(queue: seq<Message>, m: Message)
    requires InOrder(queue, m.id)
    ensures InOrder(queue + [m], m.id + 1)
  {
    if queue == [] {
      assert queue + [m] == [m];
    } else {
      InOrderLater(queue[1..], m);
      assert (queue + [m])[1..] == queue[1..] + [m];
    }
  }

  lemma PassInOrder(cfg: Config, c: Client, e: Event, next: nat)
    requires e.Pass? && InOrder(c.queue, next)
    ensures InOrder(QueuePass(cfg, c, e.found, e.ownElements, e.failAt, e.clock).0.queue, next)
  {
    hide QueuePass, Transmit, InOrder;
    var p := PassInput(cfg, Joined(c, e).connected, e.failAt, e.clock);
    var first := SentCount(c);
    var a, rest, w := c.queue[..first], c.queue[first..], WalkOf(cfg, c, e);
    PassShape(cfg, c, e);
    SplitInOrder(c.queue, first, next);
    KeptInOrder(p, rest, 0, Joined(c, e).last, next, -1);
    forall x, y | x in a && y in w.kept ensures x.id < y.id { KeptAbove(p, rest, 0, Joined(c, e).last, next, x.id); }
    ConcatInOrder(a, w.kept, next);
    ClearedInOrder(a + w.kept, next);
  }

  lemma KeptAbove(p: PassInput, rest: seq<Message>, done: nat, last: Option<nat>, next: nat, low: nat)
    requires InOrder(rest, next) && forall x :: x in rest ==> low < x.id
    ensures forall x :: x in Transmit(p, rest, done, last).kept ==> low < x.id
  {
    KeptInOrder(p, rest, done, last, next, low);
  }

  lemma StepInOrder(cfg: Config, s: System, e: Event)
    requires Enabled(s, e) && InOrder(s.client.queue, s.nextId)
    ensures InOrder(Apply(cfg, s, e).client.queue, Apply(cfg, s, e).nextId)
  {
    match e
    case Pass(_, _, _, _) => PassInOrder(cfg, s.client, e, s.nextId);
    case EnqueueRequest(kind, expected, reply) => InOrderLater(s.client.queue, NewMessage(s.nextId, kind, expected, reply));
    case _ =>
  }

  lemma {:induction false} RunInOrder(cfg: Config, s: System, es: seq<Event>)
    requires InOrder(s.client.queue, s.nextId) && Possible(cfg, s, es)
    ensures InOrder(Run(cfg, s, es).client.queue, Run(cfg, s, es).nextId)
    decreases |es|
  {
    if es != [] {
      StepInOrder(cfg, s, es[0]);
      RunInOrder(cfg, Apply(cfg, s, es[0]), es[1..]);
    }
  }

  /** First come, first served: in every run the queue holds the requests in the order in
      which they were enqueued. */
  lemma FirstComeFirstServed(cfg: Config, es: seq<Event>, i: nat, j: nat)
    requires Possible(cfg, INITIAL, es) && i < j < |Run(cfg, INITIAL, es).client.queue|
    ensures var queue := Run(cfg, INITIAL, es).client.queue; queue[i].id < queue[j].id
  {
    RunInOrder(cfg, INITIAL, es);
    InOrderAt(Run(cfg, INITIAL, es).client.queue, Run(cfg, INITIAL, es).nextId, i, j);
  }

  // ---- Giving up --------------------------------------------------------------------------------------------------

  /** The passes of a run that have found request `id` enqueued. */
  function PassesSince(cfg: Config, s: System, es: seq<Event>, id: nat): nat
    requires Possible(cfg, s, es)
    decreases |es|
  {
    if es == [] then 0
    else (if es[0].Pass? && id < s.nextId then 1 else 0) + PassesSince(cfg, Apply(cfg, s, es[0]), es[1..], id)
  }

  predicate TriedAtMost(queue: seq<Message>, id: nat, n: nat) {
    forall m :: m in queue && m.id == id ==> m.trials <= n
  }

  lemma {:induction false} KeptTrials(p: PassInput, rest: seq<Message>, done: nat, last: Option<nat>, id: nat, n: nat)
    requires TriedAtMost(rest, id, n)
    ensures TriedAtMost(Transmit(p, rest, done, last).kept, id, n + 1)
    decreases |rest|
  {
    if rest != [] {
      var fate, m := FateOf(p, rest[0], done), Tried(p, rest[0], done);
      assert rest[0] in rest && forall x :: x in rest[1..] ==> x in rest;
      if fate != SendFails { KeptTrials(p, rest[1..], NextDone(fate, done), NextLast(fate, m, last), id, n); }
    }
  }

  lemma ClearedTrials(queue: seq<Message>, id: nat, n: nat)
    requires TriedAtMost(queue, id, n)
    ensures TriedAtMost(ClearFlags(queue), id, n)
  {
    forall m | m in ClearFlags(queue) && m.id == id ensures m.trials <= n {
      var i :| 0 <= i < |queue| && ClearFlags(queue)[i] == m;
      assert queue[i] in queue;
    }
  }

  lemma {:induction false} BelowNext(queue: seq<Message>, next: nat, m: Message)
    requires InOrder(queue, next) && m in queue
    ensures m.id < next
  {
    if m != queue[0] { BelowNext(queue[1..], next, m); }
  }

  /** Request `id` has been tried in at most `n` passes, and given up only after more passes
      than it may have trials. */
  predicate Patient(cfg: Config, s: System, id: nat, n: nat) {
    && InOrder(s.client.queue, s.nextId) && TriedAtMost(s.client.queue, id, n)
    && forall r :: r in s.resolved && r.Discarded? && r.id == id ==> n > cfg.maxTrials
  }

  lemma PassTrials(cfg: Config, c: Client, e: Event, id: nat, n: nat)
    requires e.Pass? && TriedAtMost(c.queue, id, n)
    ensures TriedAtMost(QueuePass(cfg, c, e.found, e.ownElements, e.failAt, e.clock).0.queue, id, n + 1)
  {
    var p := PassInput(cfg, Joined(c, e).connected, e.failAt, e.clock);
    var first := SentCount(c);
    PassShape(cfg, c, e);
    hide QueuePass, Transmit;
    assert TriedAtMost(c.queue[..first], id, n) && TriedAtMost(c.queue[first..], id, n);
    KeptTrials(p, c.queue[first..], 0, Joined(c, e).last, id, n);
    ClearedTrials(c.queue[..first] + WalkOf(cfg, c, e).kept, id, n + 1);
  }

  lemma PassGivesUp(cfg: Config, c: Client, e: Event, id: nat, n: nat, r: Resolution)
    requires e.Pass? && TriedAtMost(c.queue, id, n)
    requires r in QueuePass(cfg, c, e.found, e.ownElements, e.failAt, e.clock).1.resolved && r.Discarded? && r.id == id
    ensures n >= cfg.maxTrials && exists m :: m in c.queue && m.id == id
  {
    var p := PassInput(cfg, Joined(c, e).connected, e.failAt, e.clock);
    var rest := c.queue[SentCount(c)..];
    PassShape(cfg, c, e);
    hide QueuePass, Transmit;
    ResolvedLeft(p, rest, 0, Joined(c, e).last, r);
    var m :| m in rest && Leaves(p, m, r);
    assert m in c.queue && m.id == id;
  }

  lemma PassPatient(cfg: Config, s: System, e: Event, id: nat, n: nat)
    requires e.Pass? && Patient(cfg, s, id, n)
    ensures Patient(cfg, Apply(cfg, s, e), id, n + if id < s.nextId then 1 else 0)
  {
    var c, s' := s.client, Apply(cfg, s, e);
    StepInOrder(cfg, s, e);
    hide QueuePass, InOrder;
    if id < s.nextId {
      PassTrials(cfg, c, e, id, n);
    } else {
      forall m | m in c.queue ensures m.id != id { BelowNext(c.queue, s.nextId, m); }
      forall m | m in s'.client.queue ensures m.id != id { BelowNext(s'.client.queue, s.nextId, m); }
    }
    forall r | r in s'.resolved && r.Discarded? && r.id == id
      ensures n + (if id < s.nextId then 1 else 0) > cfg.maxTrials
    {
      if r !in s.resolved { PassGivesUp(cfg, c, e, id, n, r); }
    }
  }

  lemma StepPatient(cfg: Config, s: System, e: Event, id: nat, n: nat)
    requires Enabled(s, e) && Patient(cfg, s, id, n)
    ensures Patient(cfg, Apply(cfg, s, e), id, n + if e.Pass? && id < s.nextId then 1 else 0)
  {
    if e.Pass? {
      PassPatient(cfg, s, e, id, n);
    } else {
      StepInOrder(cfg, s, e);
      hide InOrder;
    }
  }

  lemma RunStep(cfg: Config, s: System, es: seq<Event>, id: nat)
    requires Possible(cfg, s, es) && es != []
    ensures Enabled(s, es[0]) && Possible(cfg, Apply(cfg, s, es[0]), es[1..])
    ensures Run(cfg, s, es) == Run(cfg, Apply(cfg, s, es[0]), es[1..])
    ensures PassesSince(cfg, s, es, id) ==
      PassesSince(cfg, Apply(cfg, s, es[0]), es[1..], id) + if es[0].Pass? && id < s.nextId then 1 else 0
  {
    hide Apply, Enabled;
  }

  lemma {:induction false} RunPatient(cfg: Config, s: System, es: seq<Event>, id: nat, n: nat)
    requires Possible(cfg, s, es) && Patient(cfg, s, id, n)
    ensures Patient(cfg, Run(cfg, s, es), id, n + PassesSince(cfg, s, es, id))
    decreases |es|
  {
    hide Patient, Apply, Enabled;
    if es != [] {
      RunStep(cfg, s, es, id);
      StepPatient(cfg, s, es[0], id, n);
      RunPatient(cfg, Apply(cfg, s, es[0]), es[1..], id, n + if es[0].Pass? && id < s.nextId then 1 else 0);
    }
  }

  /** A request is not given up early: in every run a trial of a queued request is a pass over
      it, and one that was given up was there for more passes than it may have trials. */
  lemma GivenUpLate(cfg: Config, es: seq<Event>, id: nat)
    requires Possible(cfg, INITIAL, es)
    ensures var end, n := Run(cfg, INITIAL, es), PassesSince(cfg, INITIAL, es, id);
      && (forall m :: m in end.client.queue && m.id == id ==> m.trials <= n)
      && (forall r :: r in end.resolved && r.Discarded? && r.id == id ==> n > cfg.maxTrials)
  {
    hide QueuePass, Possible, Run, PassesSince;
    RunPatient(cfg, INITIAL, es, id, 0);
  }

  /** Each kind of request that has a response has one of its own, and an error is none. */
  lemma ResponsePerRequest(response: ResponseType, request: RequestType)
    ensures Matches(RegistrationResponse, Registration) && Matches(DeregistrationResponse, Deregistration)
    ensures Matches(HandleResolutionResponse, HandleResolution)
    ensures Matches(response, request) ==>
      forall r, q :: Matches(r, q) ==> (r == response <==> q == request)
    ensures !Matches(AsapError, request) && !Matches(response, EndpointUnreachable)
  {
  }
}
