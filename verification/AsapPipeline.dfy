/**
 The ASAP request pipeline: client threads append requests to one queue, the
 main loop transmits them over the registrar connection and matches responses
 to requests by queue position only.

 `Client` is the protocol state of one ASAP instance; the functions below are
 its atomic steps.  Each step also says, in `Effects`, what it did to the
 outside world.
 */
module AsapPipeline {
  import opened Wrappers

  datatype RequestType = Registration | Deregistration | HandleResolution | EndpointUnreachable

  /** What a registrar sends back: the response of the matching type (with an
      error code, or a plain success) or an ASAP_ERROR. */
  datatype ResponseType = RegistrationResponse | DeregistrationResponse | HandleResolutionResponse | AsapError

  /** `request` names the request that the registrar answered; the client never
      looks at it. */
  datatype Response = Response(kind: ResponseType, noUsableAddresses: bool, request: nat)

  /** A queued request: `id` is its identity, as a pointer is in the source. */
  datatype Message = Message(
    id: nat,
    kind: RequestType,
    responseExpected: bool,
    hasReplyPort: bool,
    trials: nat,
    deadline: nat,
    needsScheduling: bool)

  datatype Reason = NoRegistrar | TimedOut

  /** How a request left the queue. */
  datatype Resolution =
    | Answered(id: nat, response: Response)
    | Discarded(id: nat, reason: Reason)
    | Dispatched(id: nat)

  datatype Config = Config(maxTrials: nat, responseTimeout: nat)

  datatype Client = Client(queue: seq<Message>, last: Option<nat>, connected: bool, timer: Option<nat>)

  /** `sent` lists the requests that went onto the connection in order, `resolved`
      those that left the queue, `dropped` whether the connection was closed
      (after everything else), `checkFailed` whether a CHECK aborted. */
  datatype Effects = Effects(sent: seq<Message>, resolved: seq<Resolution>, dropped: bool, checkFailed: bool)

  const INITIAL_CLIENT := Client([], None, false, None)
  const NO_EFFECTS := Effects([], [], false, false)

  /** Position of the message with this identity, `|queue|` if there is none. */
  function IndexOf(queue: seq<Message>, id: nat): (i: nat)
    ensures i <= |queue|
    ensures i < |queue| ==> queue[i].id == id
    ensures forall j :: 0 <= j < i ==> queue[j].id != id
  {
    if queue == [] then 0
    else if queue[0].id == id then 0
    else 1 + IndexOf(queue[1..], id)
  }

  /** Number of leading queue entries that LastAITM covers. */
  function SentCount(c: Client): (n: nat)
    ensures n <= |c.queue|
  {
    if c.last.None? || IndexOf(c.queue, c.last.value) == |c.queue| then 0
    else IndexOf(c.queue, c.last.value) + 1
  }

  // ---- Connection -----------------------------------------------------------

  function Disconnect(c: Client): Client {
    if c.connected then c.(connected := false, last := None, timer := None) else c
  }

  function Connect(c: Client, found: bool): Client {
    if !c.connected && found then c.(connected := true, last := None) else c
  }

  // ---- Queue pass -----------------------------------------------------------

  /** What happens to one request when the pass reaches it. */
  datatype Fate = Expires | StaysQueued | SendFails | GoesOneWay | AwaitsResponse

  /** Everything a pass depends on besides the queue: `failAt` says which
      transmission of the pass fails, counted from zero; `clock(n)` is the time
      read after the n-th transmission. */
  datatype PassInput = PassInput(cfg: Config, connected: bool, failAt: Option<nat>, clock: nat -> nat)

  /** Outcome of walking the not yet transmitted part of the queue. */
  datatype Walk = Walk(kept: seq<Message>, last: Option<nat>, sent: seq<Message>, resolved: seq<Resolution>, failed: bool)

  function FateOf(p: PassInput, m: Message, done: nat): Fate {
    if m.trials + 1 > p.cfg.maxTrials then Expires
    else if !p.connected then StaysQueued
    else if p.failAt == Some(done) then SendFails
    else if !m.responseExpected then GoesOneWay
    else AwaitsResponse
  }

  /** The request after its trial counter, deadline and flag were updated. */
  function Tried(p: PassInput, m: Message, done: nat): Message {
    var m' := m.(trials := m.trials + 1);
    if FateOf(p, m, done) != AwaitsResponse then m'
    else m'.(deadline := p.clock(done) + p.cfg.responseTimeout, needsScheduling := true)
  }

  /** Adds the outcome for one request in front of the outcome for the rest. */
  function Prepend(p: PassInput, fate: Fate, m: Message, w: Walk): Walk {
    match fate
    case Expires => w.(resolved := [Discarded(m.id, if p.connected then TimedOut else NoRegistrar)] + w.resolved)
    case StaysQueued => w.(kept := [m] + w.kept)
    case SendFails => w
    case GoesOneWay => w.(sent := [m] + w.sent, resolved := [Dispatched(m.id)] + w.resolved)
    case AwaitsResponse => w.(kept := [m] + w.kept, sent := [m] + w.sent)
  }

  function NextDone(fate: Fate, done: nat): nat {
    if fate == GoesOneWay || fate == AwaitsResponse then done + 1 else done
  }

  function NextLast(fate: Fate, m: Message, last: Option<nat>): Option<nat> {
    if fate == AwaitsResponse then Some(m.id) else last
  }

  /** Walks the requests after LastAITM; a failed transmission ends the walk. */
  function Transmit(p: PassInput, rest: seq<Message>, done: nat, last: Option<nat>): (w: Walk)
    decreases |rest|
  {
    if rest == [] then Walk([], last, [], [], false)
    else
      var fate := FateOf(p, rest[0], done);
      var m := Tried(p, rest[0], done);
      if fate == SendFails then Walk([m] + rest[1..], None, [], [], true)
      else Prepend(p, fate, m, Transmit(p, rest[1..], NextDone(fate, done), NextLast(fate, m, last)))
  }

  /** Deadline of the first message whose timeout still has to be scheduled. */
  function FirstUnscheduled(queue: seq<Message>): (t: Option<nat>) {
    if queue == [] then None
    else if queue[0].responseExpected && queue[0].needsScheduling then Some(queue[0].deadline)
    else FirstUnscheduled(queue[1..])
  }

  function ClearFlags(queue: seq<Message>): (r: seq<Message>)
    ensures |r| == |queue|
    ensures forall i :: 0 <= i < |r| ==> r[i] == queue[i].(needsScheduling := false)
  {
    if queue == [] then [] else [queue[0].(needsScheduling := false)] + ClearFlags(queue[1..])
  }

  function ScheduleTimeout(c: Client): Client {
    c.(timer := if c.timer.Some? then c.timer else FirstUnscheduled(c.queue), queue := ClearFlags(c.queue))
  }

  /** One pass over the queue by the main loop.  `found` says whether a registrar
      hunt succeeds, `ownElements` whether pool elements are registered here. */
  function QueuePass(cfg: Config, c: Client, found: bool, ownElements: bool,
                     failAt: Option<nat>, clock: nat -> nat): (Client, Effects)
  {
    var first := SentCount(c);
    var c1 := if first < |c.queue| || ownElements then Connect(c, found) else c;
    var w := Transmit(PassInput(cfg, c1.connected, failAt, clock), c.queue[first..], 0, c1.last);
    var c2 := c1.(queue := c.queue[..first] + w.kept, last := w.last);
    var c3 := if w.failed then Disconnect(c2) else c2;
    (ScheduleTimeout(c3), Effects(w.sent, w.resolved, w.failed, false))
  }

  // ---- Responses, timeout, enqueueing ----------------------------------------

  predicate Matches(response: ResponseType, request: RequestType) {
    || (response == RegistrationResponse && request == Registration)
    || (response == DeregistrationResponse && request == Deregistration)
    || (response == HandleResolutionResponse && request == HandleResolution)
  }

  function HandleResponse(c: Client, r: Response): (Client, Effects) {
    if c.queue == [] then (Disconnect(c), Effects([], [], c.connected, false))
    else
      var m := c.queue[0];
      var c1 := c.(queue := c.queue[1..], timer := None);
      var reconnect := if Matches(r.kind, m.kind)
        then !m.hasReplyPort && r.kind == RegistrationResponse && r.noUsableAddresses
        else true;
      var c2 := if reconnect then Disconnect(c1) else c1;
      var c3 := if c2.last == Some(m.id) then c2.(last := None) else c2;
      var effects := Effects([], [Answered(m.id, r)], reconnect && c.connected, c3.last.Some? && c3.queue == []);
      (if c3.last.Some? && c3.queue != [] then c3.(timer := Some(c3.queue[0].deadline)) else c3, effects)
  }

  /** The dispatcher has unlinked the timer before it calls this. */
  function HandleTimeout(c: Client): (Client, Effects) {
    (Disconnect(c.(timer := None, last := None)), Effects([], [], c.connected, c.last.None?))
  }

  function NewMessage(id: nat, kind: RequestType, responseExpected: bool, hasReplyPort: bool): Message {
    Message(id, kind, responseExpected, hasReplyPort, 0, 0, false)
  }

  function Enqueue(c: Client, m: Message): Client { c.(queue := c.queue + [m]) }

  /** A registrar announces itself as new home over the hunt socket. */
  function ReplaceHome(c: Client): (Client, Effects) {
    (Connect(Disconnect(c), true), Effects([], [], c.connected, false))
  }
}
