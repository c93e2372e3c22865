/**
 The ASAP instance as an object whose handlers update the queue, the cursor, the
 connection and the timer in place.  Each handler is proved to take the step of
 the same name of AsapPipeline, so that everything proved about runs holds here.
 */
module AsapInstance {
  import opened Wrappers
  import opened AsapPipeline

  /** Puts what was done so far in front of the outcome of the remaining walk. */
  ghost function Extend(kept: seq<Message>, sent: seq<Message>, resolved: seq<Resolution>, w: Walk): Walk {
    Walk(kept + w.kept, w.last, sent + w.sent, resolved + w.resolved, w.failed)
  }

  ghost function KeptOne(fate: Fate, m: Message): seq<Message> {
    if fate == StaysQueued || fate == AwaitsResponse then [m] else []
  }

  ghost function SentOne(fate: Fate, m: Message): seq<Message> {
    if fate == GoesOneWay || fate == AwaitsResponse then [m] else []
  }

  ghost function ResolvedOne(p: PassInput, fate: Fate, m: Message): seq<Resolution> {
    if fate == Expires then [Discarded(m.id, if p.connected then TimedOut else NoRegistrar)]
    else if fate == GoesOneWay then [Dispatched(m.id)] else []
  }

  lemma Associative<T>(a: seq<T>, b: seq<T>, c: seq<T>)
    ensures a + (b + c) == a + b + c
  {
  }

  lemma PrependParts(p: PassInput, fate: Fate, m: Message, w: Walk)
    requires fate != SendFails
    ensures Prepend(p, fate, m, w) == Extend(KeptOne(fate, m), SentOne(fate, m), ResolvedOne(p, fate, m), w)
  {
  }

  lemma ExtendPrepend(p: PassInput, fate: Fate, m: Message, kept: seq<Message>, sent: seq<Message>, resolved: seq<Resolution>, w: Walk)
    requires fate != SendFails
    ensures Extend(kept, sent, resolved, Prepend(p, fate, m, w)) ==
            Extend(kept + KeptOne(fate, m), sent + SentOne(fate, m), resolved + ResolvedOne(p, fate, m), w)
  {
    PrependParts(p, fate, m, w);
    hide Prepend, KeptOne, SentOne, ResolvedOne;
    Associative(kept, KeptOne(fate, m), w.kept);
    Associative(sent, SentOne(fate, m), w.sent);
    Associative(resolved, ResolvedOne(p, fate, m), w.resolved);
  }

  lemma NothingToTransmit(p: PassInput, done: nat, last: Option<nat>, kept: seq<Message>, sent: seq<Message>, resolved: seq<Resolution>)
    ensures Extend(kept, sent, resolved, Transmit(p, [], done, last)) == Walk(kept, last, sent, resolved, false)
  {
  }

  lemma TransmitStep(p: PassInput, rest: seq<Message>, done: nat, last: Option<nat>)
    requires rest != []
    ensures var fate, m := FateOf(p, rest[0], done), Tried(p, rest[0], done);
      Transmit(p, rest, done, last) ==
        if fate == SendFails then Walk([m] + rest[1..], None, [], [], true)
        else Prepend(p, fate, m, Transmit(p, rest[1..], NextDone(fate, done), NextLast(fate, m, last)))
  {
  }

  lemma EditAfter(a: seq<Message>, rest: seq<Message>, m: Message)
    requires rest != []
    ensures (a + rest)[|a|] == rest[0]
    ensures (a + rest)[..|a|] + (a + rest)[|a| + 1..] == a + rest[1..]
    ensures (a + rest)[|a| := m] == a + [m] + rest[1..]
  {
  }

  /** One step of the walk, with what was done before. */
  lemma WalkOne(p: PassInput, rest: seq<Message>, done: nat, last: Option<nat>, kept: seq<Message>, sent: seq<Message>, resolved: seq<Resolution>)
    requires rest != []
    ensures var fate, m := FateOf(p, rest[0], done), Tried(p, rest[0], done);
      Extend(kept, sent, resolved, Transmit(p, rest, done, last)) ==
        if fate == SendFails then Walk(kept + ([m] + rest[1..]), None, sent, resolved, true)
        else Extend(kept + KeptOne(fate, m), sent + SentOne(fate, m), resolved + ResolvedOne(p, fate, m),
                    Transmit(p, rest[1..], NextDone(fate, done), NextLast(fate, m, last)))
  {
    var fate, m := FateOf(p, rest[0], done), Tried(p, rest[0], done);
    TransmitStep(p, rest, done, last);
    hide Transmit, FateOf, Tried, Prepend, KeptOne, SentOne, ResolvedOne, NextDone, NextLast;
    if fate == SendFails {
      assert sent + [] == sent && resolved + [] == resolved;
    } else {
      ExtendPrepend(p, fate, m, kept, sent, resolved,
                    Transmit(p, rest[1..], NextDone(fate, done), NextLast(fate, m, last)));
    }
  }

  /** The queue while it is walked: `before` is not touched, `kept` is done. */
  lemma EditAt(before: seq<Message>, kept: seq<Message>, rest: seq<Message>, m: Message)
    requires rest != []
    ensures var queue, i := before + kept + rest, |before| + |kept|;
      && queue[i] == rest[0]
      && queue[..i] + queue[i + 1..] == before + (kept + []) + rest[1..]
      && queue[i := m] == before + (kept + [m]) + rest[1..]
      && queue[i := m] == before + (kept + ([m] + rest[1..]))
  {
    EditAfter(before + kept, rest, m);
    assert kept + [] == kept;
    Associative(before, kept, [m]);
    Associative(kept, [m], rest[1..]);
    Associative(before, kept + [m], rest[1..]);
  }

  class AsapInstance {
    const cfg: Config
    var mainLoopPort: seq<Message>
    var lastAITM: Option<nat>
    var registrarConnected: bool
    var timeoutTimer: Option<nat>

    ghost function View(): Client
      reads this
    {
      Client(mainLoopPort, lastAITM, registrarConnected, timeoutTimer)
    }

    constructor (cfg: Config)
      ensures View() == INITIAL_CLIENT && this.cfg == cfg
    {
      this.cfg := cfg;
      mainLoopPort, lastAITM, registrarConnected, timeoutTimer := [], None, false, None;
    }

    method SendRequest(m: Message)
      modifies this
      ensures View() == Enqueue(old(View()), m)
    {
      mainLoopPort := mainLoopPort + [m];
    }

    method ConnectToRegistrar(found: bool)
      modifies this
      ensures View() == Connect(old(View()), found)
    {
      if !registrarConnected {
        if !found { return; }
        registrarConnected := true;
        lastAITM := None;
      }
    }

    method DisconnectFromRegistrar()
      modifies this
      ensures View() == Disconnect(old(View()))
    {
      if registrarConnected {
        timeoutTimer := None;
        registrarConnected := false;
        lastAITM := None;
      }
    }

    method FindPosition(id: nat) returns (i: nat)
      ensures i == IndexOf(mainLoopPort, id)
    {
      i := 0;
      while i < |mainLoopPort| && mainLoopPort[i].id != id
        invariant i <= |mainLoopPort|
        invariant IndexOf(mainLoopPort, id) == i + IndexOf(mainLoopPort[i..], id)
      {
        i := i + 1;
      }
    }

    /** Transmits what is queued behind LastAITM, then arms the timer if necessary. */
    method HandleQueuedAITMs(found: bool, ownElements: bool, failAt: Option<nat>, clock: nat -> nat)
        returns (effects: Effects)
      modifies this
      ensures (View(), effects) == QueuePass(cfg, old(View()), found, ownElements, failAt, clock)
    {
      var first := 0;
      if lastAITM.Some? {
        var position := FindPosition(lastAITM.value);
        first := if position == |mainLoopPort| then 0 else position + 1;
      }
      assert first == SentCount(old(View()));
      if !registrarConnected && (first < |mainLoopPort| || ownElements) {
        ConnectToRegistrar(found);
      }

      hide Transmit, SentCount, FirstUnscheduled, ClearFlags;
      var sent, resolved, failed := TransmitQueued(first, failAt, clock);
      effects := Effects(sent, resolved, failed, false);
      SetTimeout();
    }

    /** The walk over the queue from position `first` on. */
    method TransmitQueued(first: nat, failAt: Option<nat>, clock: nat -> nat)
        returns (sent: seq<Message>, resolved: seq<Resolution>, failed: bool)
      requires first <= |mainLoopPort|
      modifies this
      ensures var c := old(View());
        var w := Transmit(PassInput(cfg, c.connected, failAt, clock), c.queue[first..], 0, c.last);
        var c' := c.(queue := c.queue[..first] + w.kept, last := w.last);
        && View() == (if w.failed then Disconnect(c') else c')
        && sent == w.sent && resolved == w.resolved && failed == w.failed
    {
      ghost var p := PassInput(cfg, registrarConnected, failAt, clock);
      ghost var before, kept, rest := mainLoopPort[..first], [], mainLoopPort[first..];
      ghost var walk := Transmit(p, rest, 0, lastAITM);
      ghost var timer := timeoutTimer;
      var i: nat, done: nat := first, 0;
      sent, resolved, failed := [], [], false;
      assert Extend([], [], [], walk) == walk;
      hide Transmit, FateOf, Tried, Prepend, KeptOne, SentOne, ResolvedOne, NextDone, NextLast, Extend;
      while i < |mainLoopPort|
        invariant mainLoopPort == before + kept + rest && i == |before| + |kept|
        invariant registrarConnected == p.connected && timeoutTimer == timer && !failed
        invariant walk == Extend(kept, sent, resolved, Transmit(p, rest, done, lastAITM))
        decreases |rest|
      {
        ghost var fate, m := FateOf(p, rest[0], done), Tried(p, rest[0], done);
        WalkOne(p, rest, done, lastAITM, kept, sent, resolved);
        EditAt(before, kept, rest, m);
        var sentOne, resolvedOne;
        sentOne, resolvedOne, i, done, failed := TransmitOne(i, done, failAt, clock);
        if failed {
          return;
        }
        sent, resolved := sent + sentOne, resolved + resolvedOne;
        kept, rest := kept + KeptOne(fate, m), rest[1..];
      }
      assert rest == [];
      NothingToTransmit(p, done, lastAITM, kept, sent, resolved);
    }

    /** What the walk does with one request. */
    method TransmitOne(at: nat, before: nat, failAt: Option<nat>, clock: nat -> nat)
        returns (sent: seq<Message>, resolved: seq<Resolution>, i: nat, done: nat, failed: bool)
      requires at < |mainLoopPort|
      modifies this
      ensures var c := old(View());
        var p := PassInput(cfg, c.connected, failAt, clock);
        var fate, m := FateOf(p, c.queue[at], before), Tried(p, c.queue[at], before);
        && (failed <==> fate == SendFails)
        && (failed ==> View() == Disconnect(c.(queue := c.queue[at := m])))
        && (!failed ==>
              && View() == c.(queue := if KeptOne(fate, m) == [] then c.queue[..at] + c.queue[at + 1..] else c.queue[at := m],
                              last := NextLast(fate, m, c.last))
              && sent == SentOne(fate, m) && resolved == ResolvedOne(p, fate, m)
              && i == at + |KeptOne(fate, m)| && done == NextDone(fate, before)
              && (KeptOne(fate, m) == [] || KeptOne(fate, m) == [m]))
    {
      sent, resolved, i, done, failed := [], [], at, before, false;
      var aitm := mainLoopPort[at].(trials := mainLoopPort[at].trials + 1);
      if aitm.trials > cfg.maxTrials {
        resolved := [Discarded(aitm.id, if registrarConnected then TimedOut else NoRegistrar)];
        mainLoopPort := mainLoopPort[..at] + mainLoopPort[at + 1..];
      } else if !registrarConnected {
        mainLoopPort := mainLoopPort[at := aitm];
        i := i + 1;
      } else if failAt == Some(before) {
        mainLoopPort := mainLoopPort[at := aitm];
        DisconnectFromRegistrar();
        failed := true;
      } else if !aitm.responseExpected {
        sent := [aitm];
        resolved := [Dispatched(aitm.id)];
        mainLoopPort := mainLoopPort[..at] + mainLoopPort[at + 1..];
        done := done + 1;
      } else {
        aitm := aitm.(deadline := clock(before) + cfg.responseTimeout, needsScheduling := true);
        sent := [aitm];
        lastAITM := Some(aitm.id);
        mainLoopPort := mainLoopPort[at := aitm];
        i := i + 1;
        done := done + 1;
      }
    }

    /** The second half of the pass, which needs the state machine's lock. */
    method SetTimeout()
      modifies this
      ensures View() == ScheduleTimeout(old(View()))
    {
      var i := 0;
      ghost var queue := mainLoopPort;
      ghost var timer := if timeoutTimer.Some? then timeoutTimer else FirstUnscheduled(queue);
      while i < |mainLoopPort|
        invariant i <= |mainLoopPort| == |queue|
        invariant forall j :: 0 <= j < i ==> mainLoopPort[j] == queue[j].(needsScheduling := false)
        invariant forall j :: i <= j < |queue| ==> mainLoopPort[j] == queue[j]
        invariant timer == if timeoutTimer.Some? then timeoutTimer else FirstUnscheduled(queue[i..])
        invariant lastAITM == old(lastAITM) && registrarConnected == old(registrarConnected)
      {
        if mainLoopPort[i].responseExpected && mainLoopPort[i].needsScheduling && timeoutTimer.None? {
          timeoutTimer := Some(mainLoopPort[i].deadline);
        }
        mainLoopPort := mainLoopPort[i := mainLoopPort[i].(needsScheduling := false)];
        i := i + 1;
      }
      assert mainLoopPort == ClearFlags(queue);
    }

    method HandleResponseFromRegistrar(response: Response) returns (effects: Effects)
      modifies this
      ensures (View(), effects) == HandleResponse(old(View()), response)
    {
      effects := NO_EFFECTS;
      var wasConnected := registrarConnected;
      if mainLoopPort != [] {
        var aitm := mainLoopPort[0];
        mainLoopPort := mainLoopPort[1..];
        timeoutTimer := None;
        if Matches(response.kind, aitm.kind) {
          if !aitm.hasReplyPort && response.kind == RegistrationResponse && response.noUsableAddresses {
            DisconnectFromRegistrar();
            effects := effects.(dropped := wasConnected);
          }
        } else {
          DisconnectFromRegistrar();
          effects := effects.(dropped := wasConnected);
        }
        effects := effects.(resolved := [Answered(aitm.id, response)]);
        if lastAITM == Some(aitm.id) {
          lastAITM := None;
        }
        if lastAITM.Some? {
          if mainLoopPort == [] {
            effects := effects.(checkFailed := true);
          } else {
            timeoutTimer := Some(mainLoopPort[0].deadline);
          }
        }
      } else {
        DisconnectFromRegistrar();
        effects := effects.(dropped := wasConnected);
      }
    }

    method HandleRegistrarTimeout() returns (effects: Effects)
      modifies this
      ensures (View(), effects) == HandleTimeout(old(View()))
    {
      timeoutTimer := None;   // unlinked by the dispatcher
      effects := Effects([], [], registrarConnected, lastAITM.None?);
      lastAITM := None;
      DisconnectFromRegistrar();
    }

    method HandleHomeChange() returns (effects: Effects)
      modifies this
      ensures (View(), effects) == ReplaceHome(old(View()))
    {
      effects := Effects([], [], registrarConnected, false);
      DisconnectFromRegistrar();
      ConnectToRegistrar(true);
    }
  }
}
