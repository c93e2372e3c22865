/**
 Runs of the ASAP request pipeline against registrars that answer in order, and
 what holds in every one of them.

 Every connection starts with empty channels.  `inbox` holds what the registrar
 has received and not yet looked at, `answers` what it has answered and the
 client has not yet read.
 */
module AsapRuns {
  import opened Wrappers
  import opened AsapPipeline

  datatype System = System(
    client: Client,
    inbox: seq<Message>,
    answers: seq<Response>,
    nextId: nat,
    transmissions: seq<Message>,
    resolved: seq<Resolution>)

  datatype Event =
    | EnqueueRequest(kind: RequestType, responseExpected: bool, hasReplyPort: bool)
    | Pass(found: bool, ownElements: bool, failAt: Option<nat>, clock: nat -> nat)
    | Answer(answerKind: ResponseType, noUsableAddresses: bool)
    | Deliver
    | Timeout
    | ConnectionLost
    | NewHome

  const INITIAL := System(INITIAL_CLIENT, [], [], 0, [], [])

  /** A registrar answers a request with its own response type or an error. */
  predicate Plausible(response: ResponseType, request: RequestType) {
    Matches(response, request) || response == AsapError
  }

  predicate Enabled(s: System, e: Event) {
    match e
    case EnqueueRequest(kind, responseExpected, _) => responseExpected ==> kind != EndpointUnreachable
    case Answer(kind, _) => s.inbox != [] && (s.inbox[0].responseExpected ==> Plausible(kind, s.inbox[0].kind))
    case Deliver => s.client.connected && s.answers != []
    case Timeout => s.client.timer.Some?
    case ConnectionLost => s.client.connected
    case _ => true
  }

  /** The client step of an event, for those that the client takes part in. */
  function ClientStep(cfg: Config, s: System, e: Event): (Client, Effects)
    requires Enabled(s, e)
  {
    match e
    case EnqueueRequest(kind, expected, reply) =>
      (Enqueue(s.client, NewMessage(s.nextId, kind, expected, reply)), NO_EFFECTS)
    case Pass(found, own, failAt, clock) => QueuePass(cfg, s.client, found, own, failAt, clock)
    case Answer(_, _) => (s.client, NO_EFFECTS)
    case Deliver => HandleResponse(s.client, s.answers[0])
    case Timeout => HandleTimeout(s.client)
    case ConnectionLost => (Disconnect(s.client), Effects([], [], true, false))
    case NewHome => ReplaceHome(s.client)
  }

  function Apply(cfg: Config, s: System, e: Event): (s': System)
    requires Enabled(s, e)
  {
    var (client, effects) := ClientStep(cfg, s, e);
    var inbox := if e.Answer? then s.inbox[1..] else s.inbox + effects.sent;
    var answers :=
      if e.Answer? && s.inbox[0].responseExpected
        then s.answers + [Response(e.answerKind, e.noUsableAddresses, s.inbox[0].id)]
      else if e.Deliver? then s.answers[1..]
      else s.answers;
    System(client,
           if effects.dropped then [] else inbox,
           if effects.dropped then [] else answers,
           if e.EnqueueRequest? then s.nextId + 1 else s.nextId,
           s.transmissions + effects.sent,
           s.resolved + effects.resolved)
  }

  /** `es` can happen from `s` on, one event after the other. */
  predicate Possible(cfg: Config, s: System, es: seq<Event>)
    decreases |es|
  {
    es == [] || (Enabled(s, es[0]) && Possible(cfg, Apply(cfg, s, es[0]), es[1..]))
  }

  function Run(cfg: Config, s: System, es: seq<Event>): System
    requires Possible(cfg, s, es)
    decreases |es|
  {
    if es == [] then s else Run(cfg, Apply(cfg, s, es[0]), es[1..])
  }

  // ---- Vocabulary of the invariants --------------------------------------------

  /** How often request `id` occurs in a queue or a log of transmissions. */
  function Times(log: seq<Message>, id: nat): nat {
    if log == [] then 0 else (if log[0].id == id then 1 else 0) + Times(log[1..], id)
  }

  /** How often request `id` was resolved. */
  function Resolutions(log: seq<Resolution>, id: nat): nat {
    if log == [] then 0 else (if log[0].id == id then 1 else 0) + Resolutions(log[1..], id)
  }

  function Expecting(ms: seq<Message>): (r: seq<Message>)
    ensures forall m :: m in r ==> m.responseExpected && m in ms
  {
    if ms == [] then []
    else if ms[0].responseExpected then [ms[0]] + Expecting(ms[1..])
    else Expecting(ms[1..])
  }

  /** Every request ever enqueued is exactly once either queued or resolved. */
  ghost predicate Conserved(s: System) {
    forall id: nat :: Times(s.client.queue, id) + Resolutions(s.resolved, id) == if id < s.nextId then 1 else 0
  }

  /** LastAITM points into the queue and only while a connection is open. */
  predicate CursorValid(c: Client) {
    c.last.Some? ==> c.connected && IndexOf(c.queue, c.last.value) < |c.queue|
  }

  /** The queue prefix up to LastAITM is exactly what is outstanding on the
      current connection, in the order of transmission. */
  predicate Synchronised(c: Client, inbox: seq<Message>, answers: seq<Response>) {
    && (!c.connected ==> inbox == [] && answers == [])
    && Outstanding(c.queue[..SentCount(c)], Expecting(inbox), answers)
  }

  /** `waiting` and before it `answers` belong one by one to the requests in `sent`. */
  predicate Outstanding(sent: seq<Message>, waiting: seq<Message>, answers: seq<Response>) {
    && |sent| == |answers| + |waiting|
    && (forall i :: 0 <= i < |answers| ==>
          answers[i].request == sent[i].id && Plausible(answers[i].kind, sent[i].kind))
    && (forall i :: |answers| <= i < |sent| ==>
          waiting[i - |answers|].id == sent[i].id && waiting[i - |answers|].kind == sent[i].kind)
  }

  /** Request `id` went out `count` times: within the limit, and while it is queued
      no more often than it was tried. */
  predicate BoundedFor(cfg: Config, queue: seq<Message>, id: nat, count: nat) {
    count <= cfg.maxTrials && forall m :: m in queue && m.id == id ==> count <= m.trials
  }

  predicate WellTyped(queue: seq<Message>) {
    forall m :: m in queue ==> m.responseExpected ==> m.kind != EndpointUnreachable
  }

  predicate AllScheduled(queue: seq<Message>) {
    forall m :: m in queue ==> !m.needsScheduling
  }

  predicate AnswersOwn(rs: seq<Resolution>) {
    forall r :: r in rs && r.Answered? ==> r.response.request == r.id
  }

  ghost predicate Inv(cfg: Config, s: System) {
    && Conserved(s)
    && CursorValid(s.client)
    && Synchronised(s.client, s.inbox, s.answers)
    && (forall id: nat :: BoundedFor(cfg, s.client.queue, id, Times(s.transmissions, id)))
    && (forall id: nat :: id >= s.nextId ==> Times(s.transmissions, id) == 0)
    && WellTyped(s.client.queue)
    && AllScheduled(s.client.queue)
    && AnswersOwn(s.resolved)
  }

  // ---- Counting ------------------------------------------------------------------

  lemma TimesCons(m: Message, ms: seq<Message>, id: nat)
    ensures Times([m] + ms, id) == (if m.id == id then 1 else 0) + Times(ms, id)
  {
    assert ([m] + ms)[1..] == ms;
  }

  lemma {:induction false} TimesConcat(a: seq<Message>, b: seq<Message>, id: nat)
    ensures Times(a + b, id) == Times(a, id) + Times(b, id)
  {
    if a == [] {
      assert a + b == b;
    } else {
      assert (a + b)[1..] == a[1..] + b;
      TimesConcat(a[1..], b, id);
    }
  }

  lemma {:induction false} ResolutionsConcat(a: seq<Resolution>, b: seq<Resolution>, id: nat)
    ensures Resolutions(a + b, id) == Resolutions(a, id) + Resolutions(b, id)
  {
    if a == [] {
      assert a + b == b;
    } else {
      assert (a + b)[1..] == a[1..] + b;
      ResolutionsConcat(a[1..], b, id);
    }
  }

  /** A request that occurs once is found where it is. */
  lemma {:induction false} IndexOfOnly(queue: seq<Message>, i: nat)
    requires i < |queue| && Times(queue, queue[i].id) <= 1
    ensures IndexOf(queue, queue[i].id) == i
  {
    if i > 0 {
      if queue[0].id == queue[i].id {
        TimesAtLeast(queue[1..], i - 1);
      } else {
        IndexOfOnly(queue[1..], i - 1);
      }
    }
  }

  lemma {:induction false} TimesAtLeast(queue: seq<Message>, i: nat)
    requires i < |queue|
    ensures Times(queue, queue[i].id) >= 1
  {
    if i > 0 { TimesAtLeast(queue[1..], i - 1); }
  }

  lemma {:induction false} ExpectingConcat(a: seq<Message>, b: seq<Message>)
    ensures Expecting(a + b) == Expecting(a) + Expecting(b)
  {
    if a == [] {
      assert a + b == b;
    } else {
      assert (a + b)[1..] == a[1..] + b;
      ExpectingConcat(a[1..], b);
    }
  }

  // ---- The queue pass ------------------------------------------------------------

  /** The pass neither loses nor duplicates a request. */
  lemma {:induction false} TransmitConserves(p: PassInput, rest: seq<Message>, done: nat, last: Option<nat>, id: nat)
    ensures var w := Transmit(p, rest, done, last);
      Times(w.kept, id) + Resolutions(w.resolved, id) == Times(rest, id)
    decreases |rest|
  {
    if rest != [] {
      var fate, m := FateOf(p, rest[0], done), Tried(p, rest[0], done);
      if fate == SendFails {
        TimesCons(m, rest[1..], id);
      } else {
        TransmitConserves(p, rest[1..], NextDone(fate, done), NextLast(fate, m, last), id);
        var w' := Transmit(p, rest[1..], NextDone(fate, done), NextLast(fate, m, last));
        var w := Prepend(p, fate, m, w');
        TimesCons(m, w'.kept, id);
        assert |w.resolved| > |w'.resolved| ==> w.resolved[1..] == w'.resolved;
      }
    }
  }

  /** The kept requests are those just transmitted, and the cursor is on the last one. */
  predicate SentAndKept(w: Walk, last: Option<nat>) {
    if w.failed then w.last == None
    else w.kept == Expecting(w.sent) && w.last == if w.kept == [] then last else Some(w.kept[|w.kept| - 1].id)
  }

  lemma PrependSends(p: PassInput, fate: Fate, m: Message, w: Walk, last: Option<nat>)
    requires SentAndKept(w, NextLast(fate, m, last))
    requires fate == Expires || (fate == GoesOneWay && !m.responseExpected) || (fate == AwaitsResponse && m.responseExpected)
    ensures SentAndKept(Prepend(p, fate, m, w), last)
  {
    assert ([m] + w.sent)[1..] == w.sent;
  }

  /** What an undisturbed pass over a connection leaves behind. */
  lemma {:induction false} TransmitSends(p: PassInput, rest: seq<Message>, done: nat, last: Option<nat>)
    requires p.connected
    ensures SentAndKept(Transmit(p, rest, done, last), last)
    decreases |rest|
  {
    if rest != [] {
      var fate, m := FateOf(p, rest[0], done), Tried(p, rest[0], done);
      if fate != SendFails {
        TransmitSends(p, rest[1..], NextDone(fate, done), NextLast(fate, m, last));
        var w := Transmit(p, rest[1..], NextDone(fate, done), NextLast(fate, m, last));
        hide SentAndKept;
        PrependSends(p, fate, m, w, last);
      }
    }
  }

  /** Without a connection a pass only counts trials and drops expired requests. */
  lemma {:induction false} TransmitOffline(p: PassInput, rest: seq<Message>, done: nat, last: Option<nat>)
    requires !p.connected
    ensures var w := Transmit(p, rest, done, last);
      w.sent == [] && !w.failed && w.last == last
    decreases |rest|
  {
    if rest != [] {
      var fate, m := FateOf(p, rest[0], done), Tried(p, rest[0], done);
      TransmitOffline(p, rest[1..], NextDone(fate, done), NextLast(fate, m, last));
    }
  }

  /** Requests keep what their senders chose, and a pass answers none of them. */
  lemma {:induction false} TransmitKeepsTypes(p: PassInput, rest: seq<Message>, done: nat, last: Option<nat>)
    requires WellTyped(rest)
    ensures var w := Transmit(p, rest, done, last);
      WellTyped(w.kept) && (forall r :: r in w.resolved ==> !r.Answered?)
    decreases |rest|
  {
    if rest != [] {
      var fate, m := FateOf(p, rest[0], done), Tried(p, rest[0], done);
      assert rest[0] in rest;
      if fate != SendFails {
        TransmitKeepsTypes(p, rest[1..], NextDone(fate, done), NextLast(fate, m, last));
      }
    }
  }

  /** Requests outside the walked part are not transmitted. */
  lemma {:induction false} TransmitSkips(p: PassInput, rest: seq<Message>, done: nat, last: Option<nat>, id: nat)
    requires Times(rest, id) == 0
    ensures var w := Transmit(p, rest, done, last); Times(w.sent, id) == 0 && Times(w.kept, id) == 0
    decreases |rest|
  {
    if rest != [] {
      var fate, m := FateOf(p, rest[0], done), Tried(p, rest[0], done);
      if fate == SendFails {
        TimesCons(m, rest[1..], id);
      } else {
        TransmitSkips(p, rest[1..], NextDone(fate, done), NextLast(fate, m, last), id);
        var w' := Transmit(p, rest[1..], NextDone(fate, done), NextLast(fate, m, last));
        TimesCons(m, w'.sent, id);
        TimesCons(m, w'.kept, id);
      }
    }
  }

  lemma BoundedCons(cfg: Config, m: Message, queue: seq<Message>, id: nat, count: nat)
    ensures BoundedFor(cfg, [m] + queue, id, count) <==>
            BoundedFor(cfg, queue, id, count) && (m.id == id ==> count <= m.trials)
  {
    assert m in [m] + queue;
    assert forall x :: x in queue ==> x in [m] + queue;
  }

  lemma {:induction false} BoundedAbsent(cfg: Config, queue: seq<Message>, id: nat, count: nat)
    requires Times(queue, id) == 0 && count <= cfg.maxTrials
    ensures BoundedFor(cfg, queue, id, count)
  {
    if queue != [] {
      BoundedAbsent(cfg, queue[1..], id, count);
      BoundedCons(cfg, queue[0], queue[1..], id, count);
      assert queue == [queue[0]] + queue[1..];
    }
  }

  /** Each transmission uses up one trial of its request. */
  lemma {:induction false} TransmitBounded(p: PassInput, rest: seq<Message>, done: nat, last: Option<nat>, id: nat, before: nat)
    requires Times(rest, id) <= 1 && BoundedFor(p.cfg, rest, id, before)
    ensures var w := Transmit(p, rest, done, last); BoundedFor(p.cfg, w.kept, id, before + Times(w.sent, id))
    decreases |rest|
  {
    if rest != [] {
      var fate, m := FateOf(p, rest[0], done), Tried(p, rest[0], done);
      assert rest == [rest[0]] + rest[1..];
      BoundedCons(p.cfg, rest[0], rest[1..], id, before);
      if fate == SendFails {
        BoundedCons(p.cfg, m, rest[1..], id, before);
      } else {
        var done', last' := NextDone(fate, done), NextLast(fate, m, last);
        var w' := Transmit(p, rest[1..], done', last');
        if id == m.id {
          TransmitSkips(p, rest[1..], done', last', id);
        } else {
          TransmitBounded(p, rest[1..], done', last', id, before);
        }
        PrependBounded(p, fate, m, w', id, before);
      }
    }
  }

  lemma PrependBounded(p: PassInput, fate: Fate, m: Message, w': Walk, id: nat, before: nat)
    requires fate != SendFails && (fate != Expires ==> m.trials <= p.cfg.maxTrials)
    requires if m.id == id
      then Times(w'.sent, id) == 0 && Times(w'.kept, id) == 0 && before < m.trials && before <= p.cfg.maxTrials
      else BoundedFor(p.cfg, w'.kept, id, before + Times(w'.sent, id))
    ensures var w := Prepend(p, fate, m, w'); BoundedFor(p.cfg, w.kept, id, before + Times(w.sent, id))
  {
    var w := Prepend(p, fate, m, w');
    TimesCons(m, w'.sent, id);
    var count := before + Times(w.sent, id);
    if m.id == id { BoundedAbsent(p.cfg, w'.kept, id, count); }
    BoundedCons(p.cfg, m, w'.kept, id, count);
  }

  // ---- Every step keeps the invariant ----------------------------------------------

  lemma {:induction false} ClearFlagsKeeps(queue: seq<Message>, id: nat)
    ensures Times(ClearFlags(queue), id) == Times(queue, id)
    ensures IndexOf(ClearFlags(queue), id) == IndexOf(queue, id)
  {
    if queue != [] {
      ClearFlagsKeeps(queue[1..], id);
      assert ClearFlags(queue)[1..] == ClearFlags(queue[1..]);
    }
  }

  /** The queue after a pass that walked the part from `first` on. */
  function PassedQueue(queue: seq<Message>, first: nat, w: Walk): seq<Message>
    requires first <= |queue|
  {
    ClearFlags(queue[..first] + w.kept)
  }

  lemma WalkConserves(p: PassInput, queue: seq<Message>, first: nat, last: Option<nat>, id: nat)
    requires first <= |queue|
    ensures var w := Transmit(p, queue[first..], 0, last);
      Times(PassedQueue(queue, first, w), id) + Resolutions(w.resolved, id) == Times(queue, id)
  {
    var w := Transmit(p, queue[first..], 0, last);
    assert queue == queue[..first] + queue[first..];
    TimesConcat(queue[..first], queue[first..], id);
    TimesConcat(queue[..first], w.kept, id);
    ClearFlagsKeeps(queue[..first] + w.kept, id);
    TransmitConserves(p, queue[first..], 0, last, id);
  }

  lemma BoundedConcat(cfg: Config, a: seq<Message>, b: seq<Message>, id: nat, count: nat)
    ensures BoundedFor(cfg, a + b, id, count) <==> BoundedFor(cfg, a, id, count) && BoundedFor(cfg, b, id, count)
  {
    assert forall x :: x in a ==> x in a + b;
    assert forall x :: x in b ==> x in a + b;
  }

  lemma BoundedFlags(cfg: Config, queue: seq<Message>, id: nat, count: nat)
    requires BoundedFor(cfg, queue, id, count)
    ensures BoundedFor(cfg, ClearFlags(queue), id, count)
  {
    var cleared := ClearFlags(queue);
    forall m | m in cleared && m.id == id ensures count <= m.trials {
      var i :| 0 <= i < |cleared| && cleared[i] == m;
      assert queue[i] in queue;
    }
  }

  lemma WalkBounded(p: PassInput, queue: seq<Message>, first: nat, last: Option<nat>, id: nat, before: nat)
    requires first <= |queue| && Times(queue, id) <= 1 && BoundedFor(p.cfg, queue, id, before)
    ensures var w := Transmit(p, queue[first..], 0, last);
      && BoundedFor(p.cfg, PassedQueue(queue, first, w), id, before + Times(w.sent, id))
      && (Times(queue, id) == 0 ==> Times(w.sent, id) == 0)
  {
    var w := Transmit(p, queue[first..], 0, last);
    var count := before + Times(w.sent, id);
    assert queue == queue[..first] + queue[first..];
    TimesConcat(queue[..first], queue[first..], id);
    BoundedConcat(p.cfg, queue[..first], queue[first..], id, before);
    TransmitBounded(p, queue[first..], 0, last, id, before);
    if Times(queue[first..], id) == 0 {
      TransmitSkips(p, queue[first..], 0, last, id);
    } else {
      BoundedAbsent(p.cfg, queue[..first], id, count);
    }
    BoundedConcat(p.cfg, queue[..first], w.kept, id, count);
    BoundedFlags(p.cfg, queue[..first] + w.kept, id, count);
  }

  ghost predicate Unique(queue: seq<Message>) {
    forall id: nat :: Times(queue, id) <= 1
  }

  lemma CursorAt(c: Client, i: nat)
    requires Unique(c.queue) && i < |c.queue| && c.last == Some(c.queue[i].id)
    ensures IndexOf(c.queue, c.last.value) == i && SentCount(c) == i + 1
  {
    IndexOfOnly(c.queue, i);
  }

  /** The connection state and walk of a queue pass. */
  function Joined(c: Client, e: Event): Client
    requires e.Pass?
  {
    if SentCount(c) < |c.queue| || e.ownElements then Connect(c, e.found) else c
  }

  function WalkOf(cfg: Config, c: Client, e: Event): Walk
    requires e.Pass?
  {
    Transmit(PassInput(cfg, Joined(c, e).connected, e.failAt, e.clock), c.queue[SentCount(c)..], 0, Joined(c, e).last)
  }

  lemma PassShape(cfg: Config, c: Client, e: Event)
    requires e.Pass?
    ensures var (c', effects) := QueuePass(cfg, c, e.found, e.ownElements, e.failAt, e.clock);
      var w := WalkOf(cfg, c, e);
      && c'.queue == PassedQueue(c.queue, SentCount(c), w)
      && c'.connected == (Joined(c, e).connected && !w.failed)
      && c'.last == (if w.failed && Joined(c, e).connected then None else w.last)
      && effects == Effects(w.sent, w.resolved, w.failed, false)
  {
  }

  lemma PassUnique(cfg: Config, c: Client, e: Event)
    requires e.Pass? && Unique(c.queue)
    ensures Unique(QueuePass(cfg, c, e.found, e.ownElements, e.failAt, e.clock).0.queue)
  {
    var p := PassInput(cfg, Joined(c, e).connected, e.failAt, e.clock);
    var c' := QueuePass(cfg, c, e.found, e.ownElements, e.failAt, e.clock).0;
    PassShape(cfg, c, e);
    forall id: nat ensures Times(c'.queue, id) <= 1 { WalkConserves(p, c.queue, SentCount(c), Joined(c, e).last, id); }
  }

  /** Where the cursor is after a walk over a connection: behind everything that is left, or
      nowhere if nothing is. */
  lemma CursorAfter(c: Client, queue: seq<Message>, first: nat, last: Option<nat>, w: Walk)
    requires Unique(c.queue) && first <= |queue| && c.queue == PassedQueue(queue, first, w) && !w.failed
    requires SentAndKept(w, last) && c.connected && c.last == w.last
    requires if first == 0 then last == None else last == Some(queue[first - 1].id)
    ensures CursorValid(c) && SentCount(c) == |c.queue|
  {
    hide Unique, Expecting;
    if c.queue != [] { CursorAt(c, |c.queue| - 1); }
  }

  lemma CursorBefore(c: Client)
    requires CursorValid(c)
    ensures if SentCount(c) == 0 then c.last == None else c.last == Some(c.queue[SentCount(c) - 1].id)
  {
  }

  /** After a pass the cursor is at the end of the queue, or nothing is outstanding. */
  lemma PassCursor(cfg: Config, c: Client, e: Event)
    requires e.Pass? && CursorValid(c) && Unique(c.queue)
    ensures var c' := QueuePass(cfg, c, e.found, e.ownElements, e.failAt, e.clock).0;
      && CursorValid(c')
      && Unique(c'.queue)
      && SentCount(c') == (if c'.connected then |c'.queue| else 0)
  {
    var p := PassInput(cfg, Joined(c, e).connected, e.failAt, e.clock);
    var c' := QueuePass(cfg, c, e.found, e.ownElements, e.failAt, e.clock).0;
    var first, last, w := SentCount(c), Joined(c, e).last, WalkOf(cfg, c, e);
    PassShape(cfg, c, e);
    PassUnique(cfg, c, e);
    CursorBefore(c);
    if !p.connected {
      TransmitOffline(p, c.queue[first..], 0, last);
    } else {
      TransmitSends(p, c.queue[first..], 0, last);
      hide QueuePass, Unique, PassedQueue;
      if !w.failed { CursorAfter(c', c.queue, first, last, w); }
    }
  }

  lemma PassSynchronised(cfg: Config, c: Client, e: Event, inbox: seq<Message>, answers: seq<Response>)
    requires e.Pass? && CursorValid(c) && Unique(c.queue) && Synchronised(c, inbox, answers)
    ensures var (c', effects) := QueuePass(cfg, c, e.found, e.ownElements, e.failAt, e.clock);
      if effects.dropped then Synchronised(c', [], []) else Synchronised(c', inbox + effects.sent, answers)
  {
    var c' := QueuePass(cfg, c, e.found, e.ownElements, e.failAt, e.clock).0;
    var p := PassInput(cfg, Joined(c, e).connected, e.failAt, e.clock);
    var first, last, w := SentCount(c), Joined(c, e).last, WalkOf(cfg, c, e);
    PassShape(cfg, c, e);
    PassCursor(cfg, c, e);
    if !p.connected {
      TransmitOffline(p, c.queue[first..], 0, last);
    } else {
      TransmitSends(p, c.queue[first..], 0, last);
      if !w.failed {
        ExpectingConcat(inbox, w.sent);
        assert c'.queue[..SentCount(c')] == c'.queue;
        OutstandingGrows(c.queue[..first], Expecting(inbox), answers, w.kept);
      }
    }
  }

  lemma OutstandingGrows(sent: seq<Message>, waiting: seq<Message>, answers: seq<Response>, more: seq<Message>)
    requires Outstanding(sent, waiting, answers)
    ensures Outstanding(ClearFlags(sent + more), waiting + more, answers)
  {
    OutstandingExtended(sent, waiting, answers, more);
    OutstandingCleared(sent + more, waiting + more, answers);
  }

  lemma OutstandingExtended(sent: seq<Message>, waiting: seq<Message>, answers: seq<Response>, more: seq<Message>)
    requires Outstanding(sent, waiting, answers)
    ensures Outstanding(sent + more, waiting + more, answers)
  {
  }

  lemma OutstandingCleared(sent: seq<Message>, waiting: seq<Message>, answers: seq<Response>)
    requires Outstanding(sent, waiting, answers)
    ensures Outstanding(ClearFlags(sent), waiting, answers)
  {
  }

  /** Taking the answered request off the queue moves the cursor along. */
  lemma DequeueCursor(c: Client, c': Client)
    requires CursorValid(c) && Unique(c.queue) && SentCount(c) > 0
    requires c'.queue == c.queue[1..] && c'.connected == c.connected
    requires c'.last == if c.last == Some(c.queue[0].id) then None else c.last
    ensures CursorValid(c') && SentCount(c') == SentCount(c) - 1
  {
  }

  /** A delivered answer belongs to the request at the head of the queue, so the
      branch for an unexpected response type is never taken. */
  lemma DeliverMatches(c: Client, inbox: seq<Message>, answers: seq<Response>)
    requires Synchronised(c, inbox, answers) && answers != []
    ensures SentCount(c) > 0 && c.queue != []
    ensures answers[0].request == c.queue[0].id && Plausible(answers[0].kind, c.queue[0].kind)
  {
    assert c.queue[..SentCount(c)][0] == c.queue[0];
  }

  lemma DeliverKeeps(c: Client, inbox: seq<Message>, answers: seq<Response>)
    requires CursorValid(c) && Unique(c.queue) && Synchronised(c, inbox, answers) && answers != []
    ensures var (c', effects) := HandleResponse(c, answers[0]);
      && c'.queue == c.queue[1..]
      && effects.resolved == [Answered(c.queue[0].id, answers[0])] && effects.sent == []
      && !effects.checkFailed
      && CursorValid(c')
      && (if effects.dropped then Synchronised(c', [], []) else Synchronised(c', inbox, answers[1..]))
  {
    DeliverMatches(c, inbox, answers);
    var (c', effects) := HandleResponse(c, answers[0]);
    if !effects.dropped {
      DequeueCursor(c, c');
      assert c.queue[..SentCount(c)][1..] == c'.queue[..SentCount(c')];
      OutstandingShrinks(c.queue[..SentCount(c)], Expecting(inbox), answers);
    }
  }

  lemma OutstandingShrinks(sent: seq<Message>, waiting: seq<Message>, answers: seq<Response>)
    requires Outstanding(sent, waiting, answers) && answers != []
    ensures Outstanding(sent[1..], waiting, answers[1..])
  {
  }

  lemma OutstandingAnswered(sent: seq<Message>, waiting: seq<Message>, answers: seq<Response>, r: Response)
    requires Outstanding(sent, waiting, answers) && waiting != []
    requires r.request == waiting[0].id && Plausible(r.kind, waiting[0].kind)
    ensures Outstanding(sent, waiting[1..], answers + [r])
  {
    var answers', waiting' := answers + [r], waiting[1..];
    forall i | 0 <= i < |answers'| ensures answers'[i].request == sent[i].id && Plausible(answers'[i].kind, sent[i].kind) {
      if i == |answers| { assert waiting[0].id == sent[i].id && waiting[0].kind == sent[i].kind; }
    }
  }

  lemma ExpectingHead(inbox: seq<Message>)
    requires inbox != []
    ensures Expecting(inbox) == if inbox[0].responseExpected then [inbox[0]] + Expecting(inbox[1..]) else Expecting(inbox[1..])
  {
  }

  /** The registrar moves its oldest request from the inbox to the answers. */
  lemma AnswerKeeps(c: Client, inbox: seq<Message>, answers: seq<Response>, r: Response)
    requires Synchronised(c, inbox, answers) && inbox != []
    requires r.request == inbox[0].id && (inbox[0].responseExpected ==> Plausible(r.kind, inbox[0].kind))
    ensures Synchronised(c, inbox[1..], if inbox[0].responseExpected then answers + [r] else answers)
  {
    ExpectingHead(inbox);
    hide Outstanding, Expecting, SentCount, Plausible;
    if inbox[0].responseExpected {
      var waiting := Expecting(inbox);
      assert waiting[0] == inbox[0] && waiting[1..] == Expecting(inbox[1..]);
      OutstandingAnswered(c.queue[..SentCount(c)], waiting, answers, r);
    }
  }

  lemma {:induction false} EnqueueCursor(c: Client, m: Message)
    requires CursorValid(c)
    ensures CursorValid(Enqueue(c, m)) && SentCount(Enqueue(c, m)) == SentCount(c)
    ensures Enqueue(c, m).queue[..SentCount(c)] == c.queue[..SentCount(c)]
  {
    if c.last.Some? { IndexOfAppend(c.queue, m, c.last.value); }
  }

  lemma {:induction false} IndexOfAppend(queue: seq<Message>, m: Message, id: nat)
    requires IndexOf(queue, id) < |queue|
    ensures IndexOf(queue + [m], id) == IndexOf(queue, id)
  {
    if queue[0].id != id {
      assert (queue + [m])[1..] == queue[1..] + [m];
      IndexOfAppend(queue[1..], m, id);
    }
  }

  // ---- The invariant over whole runs -------------------------------------------------

  lemma InitialInv(cfg: Config)
    ensures Inv(cfg, INITIAL)
  {
  }

  lemma InvUnique(cfg: Config, s: System)
    requires Inv(cfg, s)
    ensures Unique(s.client.queue)
  {
    forall id: nat ensures Times(s.client.queue, id) <= 1 {
      assert Times(s.client.queue, id) + Resolutions(s.resolved, id) == if id < s.nextId then 1 else 0;
    }
  }

  lemma StepKeepsConnectionInv(cfg: Config, s: System, e: Event)
    requires Inv(cfg, s) && Enabled(s, e)
    ensures var s' := Apply(cfg, s, e); CursorValid(s'.client) && Synchronised(s'.client, s'.inbox, s'.answers)
  {
    InvUnique(cfg, s);
    assert s.inbox + [] == s.inbox;
    match e
    case EnqueueRequest(kind, expected, reply) => EnqueueCursor(s.client, NewMessage(s.nextId, kind, expected, reply));
    case Pass(_, _, _, _) => PassCursor(cfg, s.client, e); PassSynchronised(cfg, s.client, e, s.inbox, s.answers);
    case Answer(kind, flag) => AnswerKeeps(s.client, s.inbox, s.answers, Response(kind, flag, s.inbox[0].id));
    case Deliver => DeliverKeeps(s.client, s.inbox, s.answers);
    case _ =>
  }

  lemma StepConserves(cfg: Config, s: System, e: Event, id: nat)
    requires Inv(cfg, s) && Enabled(s, e)
    ensures var s' := Apply(cfg, s, e);
      Times(s'.client.queue, id) + Resolutions(s'.resolved, id) == if id < s'.nextId then 1 else 0
  {
    var c, s' := s.client, Apply(cfg, s, e);
    assert Times(c.queue, id) + Resolutions(s.resolved, id) == if id < s.nextId then 1 else 0;
    ResolutionsConcat(s.resolved, ClientStep(cfg, s, e).1.resolved, id);
    match e
    case EnqueueRequest(kind, expected, reply) => TimesConcat(c.queue, [NewMessage(s.nextId, kind, expected, reply)], id);
    case Pass(_, _, failAt, clock) =>
      PassShape(cfg, c, e);
      WalkConserves(PassInput(cfg, Joined(c, e).connected, failAt, clock), c.queue, SentCount(c), Joined(c, e).last, id);
    case Deliver => DeliverMatches(c, s.inbox, s.answers);
    case _ =>
  }

  lemma StepBounded(cfg: Config, s: System, e: Event, id: nat)
    requires Inv(cfg, s) && Enabled(s, e)
    ensures var s' := Apply(cfg, s, e);
      && BoundedFor(cfg, s'.client.queue, id, Times(s'.transmissions, id))
      && (id >= s'.nextId ==> Times(s'.transmissions, id) == 0)
  {
    var c, s' := s.client, Apply(cfg, s, e);
    var sent := ClientStep(cfg, s, e).1.sent;
    assert Times(c.queue, id) + Resolutions(s.resolved, id) == if id < s.nextId then 1 else 0;
    assert BoundedFor(cfg, c.queue, id, Times(s.transmissions, id));
    TimesConcat(s.transmissions, sent, id);
    match e
    case EnqueueRequest(kind, expected, reply) =>
    case Pass(_, _, failAt, clock) =>
      PassShape(cfg, c, e);
      WalkBounded(PassInput(cfg, Joined(c, e).connected, failAt, clock), c.queue, SentCount(c), Joined(c, e).last,
                  id, Times(s.transmissions, id));
    case Deliver => DeliverMatches(c, s.inbox, s.answers);
    case _ =>
  }

  lemma ClearedWellTyped(queue: seq<Message>)
    requires WellTyped(queue)
    ensures WellTyped(ClearFlags(queue)) && AllScheduled(ClearFlags(queue))
  {
    forall m | m in ClearFlags(queue) ensures !m.needsScheduling && (m.responseExpected ==> m.kind != EndpointUnreachable) {
      var i :| 0 <= i < |queue| && ClearFlags(queue)[i] == m;
      assert queue[i] in queue;
    }
  }

  lemma PassWellTyped(cfg: Config, c: Client, e: Event)
    requires e.Pass? && WellTyped(c.queue)
    ensures var (c', effects) := QueuePass(cfg, c, e.found, e.ownElements, e.failAt, e.clock);
      WellTyped(c'.queue) && AllScheduled(c'.queue) && forall r :: r in effects.resolved ==> !r.Answered?
  {
    PassShape(cfg, c, e);
    TransmitKeepsTypes(PassInput(cfg, Joined(c, e).connected, e.failAt, e.clock), c.queue[SentCount(c)..], 0, Joined(c, e).last);
    ClearedWellTyped(c.queue[..SentCount(c)] + WalkOf(cfg, c, e).kept);
  }

  lemma AnswersOwnConcat(a: seq<Resolution>, b: seq<Resolution>)
    requires AnswersOwn(a) && AnswersOwn(b)
    ensures AnswersOwn(a + b)
  {
  }

  lemma StepWellTyped(cfg: Config, s: System, e: Event)
    requires Inv(cfg, s) && Enabled(s, e)
    ensures var s' := Apply(cfg, s, e);
      WellTyped(s'.client.queue) && AllScheduled(s'.client.queue) && AnswersOwn(s'.resolved)
  {
    var effects := ClientStep(cfg, s, e).1;
    match e {
      case Pass(_, _, _, _) =>
        PassWellTyped(cfg, s.client, e);
      case Deliver =>
        DeliverMatches(s.client, s.inbox, s.answers);
      case _ =>
    }
    hide Synchronised, Conserved, BoundedFor, CursorValid;
    assert AnswersOwn(effects.resolved);
    AnswersOwnConcat(s.resolved, effects.resolved);
  }

  lemma StepKeepsInv(cfg: Config, s: System, e: Event)
    requires Inv(cfg, s) && Enabled(s, e)
    ensures Inv(cfg, Apply(cfg, s, e))
  {
    var s' := Apply(cfg, s, e);
    StepKeepsConnectionInv(cfg, s, e);
    StepWellTyped(cfg, s, e);
    forall id: nat ensures Times(s'.client.queue, id) + Resolutions(s'.resolved, id) == if id < s'.nextId then 1 else 0 {
      StepConserves(cfg, s, e, id);
    }
    forall id: nat ensures BoundedFor(cfg, s'.client.queue, id, Times(s'.transmissions, id)) {
      StepBounded(cfg, s, e, id);
    }
    forall id: nat | id >= s'.nextId ensures Times(s'.transmissions, id) == 0 {
      StepBounded(cfg, s, e, id);
    }
  }

  lemma {:induction false} RunKeepsInv(cfg: Config, s: System, es: seq<Event>)
    requires Inv(cfg, s) && Possible(cfg, s, es)
    ensures Inv(cfg, Run(cfg, s, es))
    decreases |es|
  {
    if es != [] {
      StepKeepsInv(cfg, s, es[0]);
      RunKeepsInv(cfg, Apply(cfg, s, es[0]), es[1..]);
    }
  }

  // ---- Main results --------------------------------------------------------------------

  /** Response matching: whatever happened before, a response that arrives belongs to
      the request it is handed to and has an admissible type, and the CHECK that the
      queue is not empty while a response is awaited holds. */
  lemma ResponsesMatchRequests(cfg: Config, es: seq<Event>)
    requires Possible(cfg, INITIAL, es)
    ensures var s := Run(cfg, INITIAL, es);
      s.client.connected && s.answers != [] ==>
        && s.client.queue != []
        && s.answers[0].request == s.client.queue[0].id
        && Plausible(s.answers[0].kind, s.client.queue[0].kind)
        && !HandleResponse(s.client, s.answers[0]).1.checkFailed
  {
    InitialInv(cfg);
    RunKeepsInv(cfg, INITIAL, es);
    var s := Run(cfg, INITIAL, es);
    InvUnique(cfg, s);
    if s.answers != [] {
      DeliverMatches(s.client, s.inbox, s.answers);
      DeliverKeeps(s.client, s.inbox, s.answers);
    }
  }

  /** The queue prefix up to LastAITM is exactly what the registrar of the current
      connection still owes an answer to, in the order of transmission. */
  lemma PrefixIsOutstanding(cfg: Config, es: seq<Event>)
    requires Possible(cfg, INITIAL, es)
    ensures var s := Run(cfg, INITIAL, es);
      && CursorValid(s.client)
      && (!s.client.connected ==> s.inbox == [] && s.answers == [])
      && Outstanding(s.client.queue[..SentCount(s.client)], Expecting(s.inbox), s.answers)
  {
    InitialInv(cfg);
    RunKeepsInv(cfg, INITIAL, es);
  }

  /** Exactly-once resolution: every request ever enqueued is queued or resolved, exactly
      once in all; it was transmitted at most `maxTrials` times; and an answer that
      resolved it was the registrar's answer to it. */
  lemma ResolvedExactlyOnce(cfg: Config, es: seq<Event>, id: nat)
    requires Possible(cfg, INITIAL, es)
    ensures var s := Run(cfg, INITIAL, es);
      && Times(s.client.queue, id) + Resolutions(s.resolved, id) == (if id < s.nextId then 1 else 0)
      && Times(s.transmissions, id) <= cfg.maxTrials
      && (forall r :: r in s.resolved && r.Answered? ==> r.response.request == r.id)
  {
    InitialInv(cfg);
    RunKeepsInv(cfg, INITIAL, es);
    var s := Run(cfg, INITIAL, es);
    assert BoundedFor(cfg, s.client.queue, id, Times(s.transmissions, id));
  }
}
