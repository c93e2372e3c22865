/**
 The response timeout of the ASAP pipeline: when the one timer agrees with the
 cursor, and the one way in which a queue pass makes it disagree.
 */
module AsapTimer {
  import opened Wrappers
  import opened AsapPipeline
  import opened AsapRuns

  /** The timer runs exactly while a response is awaited, and for the queue head. */
  predicate Coherent(c: Client) {
    && (c.timer.Some? <==> c.last.Some?)
    && (c.last.Some? ==> c.queue != [] && c.timer == Some(c.queue[0].deadline))
  }

  /** The requests that a pass over a connection would transmit. */
  function Eligible(cfg: Config, rest: seq<Message>): seq<Message> {
    if rest == [] then []
    else if rest[0].trials < cfg.maxTrials then [rest[0]] + Eligible(cfg, rest[1..])
    else Eligible(cfg, rest[1..])
  }

  predicate ExpectsResponse(ms: seq<Message>, n: nat) {
    exists j :: 0 <= j < n && j < |ms| && ms[j].responseExpected
  }

  /** The pass has a connection, and a transmission fails after an earlier one of the
      same pass has already put a request that awaits its response on the way. */
  predicate FailsAfterRequest(cfg: Config, c: Client, e: Event)
    requires e.Pass?
  {
    var eligible := Eligible(cfg, c.queue[SentCount(c)..]);
    && (c.connected || e.found)
    && e.failAt.Some? && e.failAt.value < |eligible|
    && ExpectsResponse(eligible, e.failAt.value)
  }

  // ---- One pass -------------------------------------------------------------------------

  lemma ExpectsCons(m: Message, ms: seq<Message>, n: nat)
    requires n > 0
    ensures ExpectsResponse([m] + ms, n) <==> m.responseExpected || ExpectsResponse(ms, n - 1)
  {
    if ExpectsResponse(ms, n - 1) {
      var j :| 0 <= j < n - 1 && j < |ms| && ms[j].responseExpected;
      assert ([m] + ms)[j + 1].responseExpected;
    }
    if m.responseExpected { assert ([m] + ms)[0].responseExpected; }
    if ExpectsResponse([m] + ms, n) && !m.responseExpected {
      var j :| 0 <= j < n && j < |[m] + ms| && ([m] + ms)[j].responseExpected;
      assert ms[j - 1].responseExpected;
    }
  }

  /** Which transmission fails, and whether a pending timeout is left behind. */
  lemma {:induction false} TransmitFailure(p: PassInput, rest: seq<Message>, done: nat, last: Option<nat>)
    requires p.connected && AllScheduled(rest)
    requires p.failAt.Some? ==> done <= p.failAt.value
    ensures var w, eligible := Transmit(p, rest, done, last), Eligible(p.cfg, rest);
      && (w.failed <==> p.failAt.Some? && p.failAt.value - done < |eligible|)
      && (w.failed ==> (FirstUnscheduled(w.kept).Some? <==> ExpectsResponse(eligible, p.failAt.value - done)))
    decreases |rest|
  {
    if rest != [] {
      var fate, m := FateOf(p, rest[0], done), Tried(p, rest[0], done);
      assert rest[0] in rest && AllScheduled(rest[1..]);
      if fate == SendFails {
        NothingUnscheduled([m] + rest[1..]);
      } else {
        TransmitFailure(p, rest[1..], NextDone(fate, done), NextLast(fate, m, last));
        var w' := Transmit(p, rest[1..], NextDone(fate, done), NextLast(fate, m, last));
        assert ([m] + w'.kept)[1..] == w'.kept;
        if w'.failed && fate != Expires {
          ExpectsCons(rest[0], Eligible(p.cfg, rest[1..]), p.failAt.value - done);
        }
      }
    }
  }

  lemma {:induction false} NothingUnscheduled(queue: seq<Message>)
    requires AllScheduled(queue)
    ensures FirstUnscheduled(queue) == None
  {
    if queue != [] {
      assert queue[0] in queue;
      NothingUnscheduled(queue[1..]);
    }
  }

  lemma {:induction false} SkipScheduled(a: seq<Message>, b: seq<Message>)
    requires AllScheduled(a)
    ensures FirstUnscheduled(a + b) == FirstUnscheduled(b)
  {
    if a == [] {
      assert a + b == b;
    } else {
      assert a[0] in a && (a + b)[1..] == a[1..] + b;
      SkipScheduled(a[1..], b);
    }
  }

  lemma {:induction false} TransmitOfflineScheduled(p: PassInput, rest: seq<Message>, done: nat, last: Option<nat>)
    requires !p.connected && AllScheduled(rest)
    ensures AllScheduled(Transmit(p, rest, done, last).kept)
    decreases |rest|
  {
    if rest != [] {
      var fate, m := FateOf(p, rest[0], done), Tried(p, rest[0], done);
      assert rest[0] in rest;
      TransmitOfflineScheduled(p, rest[1..], NextDone(fate, done), NextLast(fate, m, last));
    }
  }

  /** After an undisturbed walk the first pending timeout is that of the first request. */
  lemma {:induction false} TransmitDeadline(p: PassInput, rest: seq<Message>, done: nat, last: Option<nat>)
    requires p.connected
    ensures var w := Transmit(p, rest, done, last);
      w.failed || FirstUnscheduled(w.kept) == if w.kept == [] then None else Some(w.kept[0].deadline)
    decreases |rest|
  {
    if rest != [] {
      var fate, m := FateOf(p, rest[0], done), Tried(p, rest[0], done);
      if fate != SendFails {
        TransmitDeadline(p, rest[1..], NextDone(fate, done), NextLast(fate, m, last));
      }
    }
  }

  lemma PassTimer(cfg: Config, c: Client, e: Event)
    requires e.Pass? && AllScheduled(c.queue)
    ensures var w, joined := WalkOf(cfg, c, e), Joined(c, e);
      QueuePass(cfg, c, e.found, e.ownElements, e.failAt, e.clock).0.timer ==
        if joined.timer.Some? && !(w.failed && joined.connected) then joined.timer else FirstUnscheduled(w.kept)
  {
    SkipScheduled(c.queue[..SentCount(c)], WalkOf(cfg, c, e).kept);
  }

  lemma PassOffline(cfg: Config, c: Client, e: Event)
    requires e.Pass? && CursorValid(c) && AllScheduled(c.queue) && Coherent(c) && !Joined(c, e).connected
    ensures Coherent(QueuePass(cfg, c, e.found, e.ownElements, e.failAt, e.clock).0)
  {
    var p := PassInput(cfg, false, e.failAt, e.clock);
    PassShape(cfg, c, e);
    PassTimer(cfg, c, e);
    var rest, last := c.queue[SentCount(c)..], Joined(c, e).last;
    TransmitOffline(p, rest, 0, last);
    TransmitOfflineScheduled(p, rest, 0, last);
    NothingUnscheduled(WalkOf(cfg, c, e).kept);
  }

  lemma PassFailed(cfg: Config, c: Client, e: Event)
    requires e.Pass? && AllScheduled(c.queue) && Joined(c, e).connected && WalkOf(cfg, c, e).failed
    ensures Coherent(QueuePass(cfg, c, e.found, e.ownElements, e.failAt, e.clock).0) <==>
              FirstUnscheduled(WalkOf(cfg, c, e).kept).None?
  {
    PassShape(cfg, c, e);
    PassTimer(cfg, c, e);
  }

  /** The first request of the queue after a pass. */
  lemma PassHead(c: Client, w: Walk)
    ensures var queue := PassedQueue(c.queue, SentCount(c), w);
      queue != [] ==> queue[0].deadline == if SentCount(c) > 0 then c.queue[0].deadline else w.kept[0].deadline
  {
  }

  lemma PassSucceeded(cfg: Config, c: Client, e: Event)
    requires e.Pass? && CursorValid(c) && AllScheduled(c.queue) && Coherent(c)
    requires Joined(c, e).connected && !WalkOf(cfg, c, e).failed
    ensures Coherent(QueuePass(cfg, c, e.found, e.ownElements, e.failAt, e.clock).0)
  {
    var p := PassInput(cfg, true, e.failAt, e.clock);
    var w, rest, last := WalkOf(cfg, c, e), c.queue[SentCount(c)..], Joined(c, e).last;
    PassShape(cfg, c, e);
    PassTimer(cfg, c, e);
    TransmitSends(p, rest, 0, last);
    TransmitDeadline(p, rest, 0, last);
    PassHead(c, w);
    hide AllScheduled, QueuePass, Expecting, ClearFlags, Transmit, FirstUnscheduled;
  }

  /** A pass keeps timer and cursor together exactly when no transmission fails after
      a request of the same pass is already on the way. */
  lemma PassCoherentIff(cfg: Config, c: Client, e: Event)
    requires e.Pass? && CursorValid(c) && Unique(c.queue) && AllScheduled(c.queue) && Coherent(c)
    ensures Coherent(QueuePass(cfg, c, e.found, e.ownElements, e.failAt, e.clock).0) <==> !FailsAfterRequest(cfg, c, e)
  {
    var p := PassInput(cfg, Joined(c, e).connected, e.failAt, e.clock);
    hide QueuePass, Coherent, Unique, Transmit;
    if !p.connected {
      PassOffline(cfg, c, e);
    } else {
      TransmitFailure(p, c.queue[SentCount(c)..], 0, Joined(c, e).last);
      if WalkOf(cfg, c, e).failed {
        PassFailed(cfg, c, e);
      } else {
        PassSucceeded(cfg, c, e);
      }
    }
  }

  // ---- Whole runs --------------------------------------------------------------------------

  lemma StepCoherent(cfg: Config, s: System, e: Event)
    requires Inv(cfg, s) && Enabled(s, e) && Coherent(s.client)
    requires e.Pass? ==> !FailsAfterRequest(cfg, s.client, e)
    ensures Coherent(Apply(cfg, s, e).client)
    ensures !ClientStep(cfg, s, e).1.checkFailed
  {
    InvUnique(cfg, s);
    if e.Pass? {
      PassCoherentIff(cfg, s.client, e);
    } else if e.Deliver? {
      DeliverMatches(s.client, s.inbox, s.answers);
      DeliverKeeps(s.client, s.inbox, s.answers);
    }
  }

  /** No pass of the run fails a transmission after an earlier request of its own. */
  predicate Undisturbed(cfg: Config, s: System, es: seq<Event>)
    requires Possible(cfg, s, es)
    decreases |es|
  {
    es == [] ||
    (&& (es[0].Pass? ==> !FailsAfterRequest(cfg, s.client, es[0]))
     && Undisturbed(cfg, Apply(cfg, s, es[0]), es[1..]))
  }

  lemma {:induction false} RunCoherent(cfg: Config, s: System, es: seq<Event>)
    requires Inv(cfg, s) && Coherent(s.client) && Possible(cfg, s, es) && Undisturbed(cfg, s, es)
    ensures Coherent(Run(cfg, s, es).client)
    decreases |es|
  {
    if es != [] {
      StepKeepsInv(cfg, s, es[0]);
      StepCoherent(cfg, s, es[0]);
      RunCoherent(cfg, Apply(cfg, s, es[0]), es[1..]);
    }
  }

  /** Timer and cursor agree now and after every event. */
  predicate AlwaysCoherent(cfg: Config, s: System, es: seq<Event>)
    requires Possible(cfg, s, es)
    decreases |es|
  {
    Coherent(s.client) && (es == [] || AlwaysCoherent(cfg, Apply(cfg, s, es[0]), es[1..]))
  }

  lemma {:induction false} AlwaysCoherentFrom(cfg: Config, s: System, es: seq<Event>)
    requires Inv(cfg, s) && Coherent(s.client) && Possible(cfg, s, es)
    ensures AlwaysCoherent(cfg, s, es) <==> Undisturbed(cfg, s, es)
    decreases |es|
  {
    if es != [] {
      var e, s' := es[0], Apply(cfg, s, es[0]);
      StepKeepsInv(cfg, s, e);
      InvUnique(cfg, s);
      hide Inv, Coherent, FailsAfterRequest;
      if e.Pass? && FailsAfterRequest(cfg, s.client, e) {
        DisturbedStep(cfg, s, e);
      } else {
        StepCoherent(cfg, s, e);
        AlwaysCoherentFrom(cfg, s', es[1..]);
      }
    }
  }

  lemma DisturbedStep(cfg: Config, s: System, e: Event)
    requires Inv(cfg, s) && Coherent(s.client) && e.Pass? && Enabled(s, e) && FailsAfterRequest(cfg, s.client, e)
    ensures !Coherent(Apply(cfg, s, e).client)
  {
    InvUnique(cfg, s);
    PassCoherentIff(cfg, s.client, e);
  }

  /** Timer and cursor agree after every event of a run if and only if no pass of it fails a
      transmission after an earlier request of its own. */
  lemma AlwaysCoherentIff(cfg: Config, es: seq<Event>)
    requires Possible(cfg, INITIAL, es)
    ensures AlwaysCoherent(cfg, INITIAL, es) <==> Undisturbed(cfg, INITIAL, es)
  {
    InitialInv(cfg);
    AlwaysCoherentFrom(cfg, INITIAL, es);
  }

  /** Timer coherence: in undisturbed runs the timer is armed exactly while a response
      is awaited, for the deadline of the queue head, and the CHECK of the timeout
      handler holds whenever the timer fires. */
  lemma TimerCoherence(cfg: Config, es: seq<Event>)
    requires Possible(cfg, INITIAL, es) && Undisturbed(cfg, INITIAL, es)
    ensures var c := Run(cfg, INITIAL, es).client;
      && (c.timer.Some? <==> c.last.Some?)
      && (c.last.Some? ==> c.queue != [] && c.timer == Some(c.queue[0].deadline))
      && (c.timer.Some? ==> !HandleTimeout(c).1.checkFailed)
  {
    InitialInv(cfg);
    RunCoherent(cfg, INITIAL, es);
  }

  lemma RunThree(cfg: Config, s: System, a: Event, b: Event, c: Event)
    requires Enabled(s, a) && Enabled(Apply(cfg, s, a), b) && Enabled(Apply(cfg, Apply(cfg, s, a), b), c)
    ensures Possible(cfg, s, [a, b, c]) && Run(cfg, s, [a, b, c]) == Apply(cfg, Apply(cfg, Apply(cfg, s, a), b), c)
  {
    hide Apply, Enabled;
    var s1 := Apply(cfg, s, a);
    var s2 := Apply(cfg, s1, b);
    assert [a, b, c][1..] == [b, c] && [b, c][1..] == [c] && [c][1..] == [];
    assert Possible(cfg, s2, [c]) && Run(cfg, s2, [c]) == Apply(cfg, s2, c);
    assert Possible(cfg, s1, [b, c]) && Run(cfg, s1, [b, c]) == Apply(cfg, s2, c);
  }

  /** A pass that transmits the first of two requests and fails on the second one. */
  lemma SecondTransmissionFails(cfg: Config, m0: Message, m1: Message, clock: nat -> nat)
    requires cfg.maxTrials >= 1 && m0.responseExpected && m0.trials == 0 && m1.trials == 0
    ensures var c := Client([m0, m1], None, false, None);
      var c' := QueuePass(cfg, c, true, false, Some(1), clock).0;
      c'.timer.Some? && c'.last.None?
  {
    var p := PassInput(cfg, true, Some(1), clock);
    assert [m0, m1][1..] == [m1] && [m1][1..] == [] && [m0, m1][0..] == [m0, m1];
    assert Transmit(p, [m1], 1, Some(m0.id)) == Walk([Tried(p, m1, 1)] + [], None, [], [], true);
    var w := Transmit(p, [m0, m1], 0, None);
    assert w.failed && w.last == None && w.kept[0] == Tried(p, m0, 0);
    assert [m0, m1][..0] + w.kept == w.kept;
  }

  /** Two requests, of which the second cannot be transmitted: the pass disconnects,
      then arms the timer for the first one, and the timeout handler's CHECK fails. */
  lemma DisturbedRunFails(cfg: Config, clock: nat -> nat)
    requires cfg.maxTrials >= 1
    ensures var request := EnqueueRequest(Registration, true, true);
      var es := [request, request, Pass(true, false, Some(1), clock)];
      && Possible(cfg, INITIAL, es)
      && var s := Run(cfg, INITIAL, es);
         && Enabled(s, Timeout)
         && ClientStep(cfg, s, Timeout).1.checkFailed
  {
    var request, pass := EnqueueRequest(Registration, true, true), Pass(true, false, Some(1), clock);
    var s2 := Apply(cfg, Apply(cfg, INITIAL, request), request);
    var m0, m1 := NewMessage(0, Registration, true, true), NewMessage(1, Registration, true, true);
    assert s2.client == Client([m0, m1], None, false, None);
    SecondTransmissionFails(cfg, m0, m1, clock);
    hide QueuePass;
    RunThree(cfg, INITIAL, request, request, pass);
  }
}
