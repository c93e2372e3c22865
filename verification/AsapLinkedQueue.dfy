/**
 The walk of the main loop over the linked message queue itself.  A request is its node;
 `content` holds the fields of the requests.  Whether a node is taken out depends on the
 trials of the request and on the transmission, and its successor is looked up before.
 */
module AsapLinkedQueue {
  import opened Wrappers
  import opened RingList
  import opened AsapPipeline
  import AsapInstance

  type Content = map<Node, Message>

  function FieldsOf(c: Content, n: Node): Message {
    if n in c then c[n] else NewMessage(0, Registration, false, false)
  }

  /** The requests in a part of the queue. */
  ghost function Records(ms: seq<Node>, c: Content): seq<Message> {
    if ms == [] then [] else [FieldsOf(c, ms[0])] + Records(ms[1..], c)
  }

  lemma RecordsCons(ms: seq<Node>, c: Content)
    requires ms != []
    ensures Records(ms, c) != [] && Records(ms, c)[0] == FieldsOf(c, ms[0]) && Records(ms, c)[1..] == Records(ms[1..], c)
  {
  }

  lemma {:induction false} RecordsConcat(a: seq<Node>, b: seq<Node>, c: Content)
    ensures Records(a + b, c) == Records(a, c) + Records(b, c)
  {
    if a == [] {
      assert a + b == b;
    } else {
      assert (a + b)[1..] == a[1..] + b;
      RecordsConcat(a[1..], b, c);
    }
  }

  /** Changing one request does not change the others. */
  lemma {:induction false} RecordsFrame(ms: seq<Node>, c: Content, n: Node, m: Message)
    requires n !in ms
    ensures Records(ms, c[n := m]) == Records(ms, c)
  {
    if ms != [] {
      assert ms[0] in ms;
      RecordsFrame(ms[1..], c, n, m);
    }
  }

  /** What was decided about one request is what the model says. */
  ghost predicate Decided(p: PassInput, request: Message, before: nat, aitm: Message, removed: bool, failed: bool,
                          sent: seq<Message>, resolved: seq<Resolution>, done: nat) {
    var fate := FateOf(p, request, before);
    && aitm == Tried(p, request, before) && (failed <==> fate == SendFails)
    && (!failed ==>
          && AsapInstance.KeptOne(fate, aitm) == (if removed then [] else [aitm])
          && sent == AsapInstance.SentOne(fate, aitm) && resolved == AsapInstance.ResolvedOne(p, fate, aitm)
          && done == NextDone(fate, before)
          && (fate == AwaitsResponse <==> !removed && p.connected))
  }

  /** What happens to one request, and whether it leaves the queue. */
  method Decide(cfg: Config, connected: bool, failAt: Option<nat>, clock: nat -> nat, request: Message, before: nat)
      returns (aitm: Message, removed: bool, failed: bool, sent: seq<Message>, resolved: seq<Resolution>, done: nat)
    ensures Decided(PassInput(cfg, connected, failAt, clock), request, before, aitm, removed, failed, sent, resolved, done)
  {
    aitm := request.(trials := request.trials + 1);
    removed, failed, sent, resolved, done := false, false, [], [], before;
    if aitm.trials > cfg.maxTrials {
      resolved := [Discarded(aitm.id, if connected then TimedOut else NoRegistrar)];
      removed := true;
    } else if connected {
      if failAt == Some(before) {
        failed := true;
      } else {
        done := before + 1;
        if !aitm.responseExpected {
          resolved := [Dispatched(aitm.id)];
          removed := true;
        } else {
          aitm := aitm.(deadline := clock(before) + cfg.responseTimeout, needsScheduling := true);
        }
        sent := [aitm];
      }
    }
  }

  /** The nodes of a port are distinct. */
  lemma OnlyHere(port: MessagePort, kept: seq<Node>, rest: seq<Node>)
    requires port.Valid() && port.Messages() == kept + rest && rest != []
    ensures rest[0] !in kept && rest[0] !in rest[1..]
  {
    var all := port.Messages();
    assert Distinct(port.Queue.node, all);
    assert all[|kept|] == rest[0];
    forall i | 0 <= i < |kept| ensures kept[i] != rest[0] { assert all[i] == kept[i]; }
    forall i | 0 <= i < |rest[1..]| ensures rest[1..][i] != rest[0] { assert all[|kept| + 1 + i] == rest[1..][i]; }
  }

  /** The records of what was visited, after one more step. */
  lemma OneMore(kept: seq<Node>, rest: seq<Node>, c: Content, m: Message, removed: bool)
    requires rest != [] && rest[0] !in kept && rest[0] !in rest[1..]
    ensures var c', kept' := c[rest[0] := m], Visited(kept, rest[0], removed);
      && Records(kept', c') == Records(kept, c) + (if removed then [] else [m])
      && Records(rest[1..], c') == Records(rest, c)[1..]
  {
    var n, c' := rest[0], c[rest[0] := m];
    RecordsCons(rest, c);
    RecordsFrame(kept, c, n, m);
    RecordsFrame(rest[1..], c, n, m);
    RecordsConcat(kept, [n], c');
    assert [n][1..] == [] && Records([n], c') == [m] + Records([], c');
    assert Records(kept, c) + [] == Records(kept, c);
  }

  /** A failed transmission: the request stays where it is, with one trial more. */
  lemma FailedHere(kept: seq<Node>, rest: seq<Node>, c: Content, m: Message)
    requires rest != [] && rest[0] !in kept && rest[0] !in rest[1..]
    ensures Records(kept + rest, c[rest[0] := m]) == Records(kept, c) + ([m] + Records(rest, c)[1..])
  {
    var n, c' := rest[0], c[rest[0] := m];
    RecordsConcat(kept, rest, c');
    RecordsFrame(kept, c, n, m);
    RecordsFrame(rest[1..], c, n, m);
    RecordsCons(rest, c);
    RecordsCons(rest, c');
    assert Records(rest, c') == [Records(rest, c')[0]] + Records(rest, c')[1..];
  }

  // ---- The walk --------------------------------------------------------------------------------------

  /** How far the walk is: what the visited requests have become, and what is still to do. */
  datatype Progress = Progress(c: Content, done: nat, cursor: Option<nat>, sent: seq<Message>, resolved: seq<Resolution>)

  ghost predicate OnTheWay(p: PassInput, walk: Walk, front: seq<Message>, kept: seq<Node>, rest: seq<Node>,
                           records: seq<Message>, w: Progress) {
    && Records(kept, w.c) == front + records
    && walk == AsapInstance.Extend(records, w.sent, w.resolved, Transmit(p, Records(rest, w.c), w.done, w.cursor))
  }

  function Proceed(w: Progress, n: Node, aitm: Message, removed: bool, connected: bool, sent: seq<Message>, resolved: seq<Resolution>, done: nat): Progress {
    Progress(w.c[n := aitm], done, if !removed && connected then Some(aitm.id) else w.cursor, w.sent + sent, w.resolved + resolved)
  }

  lemma Begins(p: PassInput, before: seq<Node>, behind: seq<Node>, c: Content, last: Option<nat>)
    ensures OnTheWay(p, Transmit(p, Records(behind, c), 0, last), Records(before, c), before, behind, [], Progress(c, 0, last, [], []))
  {
    var walk := Transmit(p, Records(behind, c), 0, last);
    assert AsapInstance.Extend([], [], [], walk) == walk && Records(before, c) + [] == Records(before, c);
  }

  lemma Proceeds(p: PassInput, walk: Walk, front: seq<Message>, kept: seq<Node>, rest: seq<Node>, records: seq<Message>, w: Progress,
                 aitm: Message, removed: bool, sent: seq<Message>, resolved: seq<Resolution>, done: nat)
    requires OnTheWay(p, walk, front, kept, rest, records, w) && rest != [] && rest[0] !in kept && rest[0] !in rest[1..]
    requires Decided(p, FieldsOf(w.c, rest[0]), w.done, aitm, removed, false, sent, resolved, done)
    ensures OnTheWay(p, walk, front, Visited(kept, rest[0], removed), rest[1..], records + (if removed then [] else [aitm]),
                     Proceed(w, rest[0], aitm, removed, p.connected, sent, resolved, done))
  {
    RecordsCons(rest, w.c);
    AsapInstance.WalkOne(p, Records(rest, w.c), w.done, w.cursor, records, w.sent, w.resolved);
    OneMore(kept, rest, w.c, aitm, removed);
    hide Transmit, Tried, AsapInstance.KeptOne, AsapInstance.SentOne, AsapInstance.ResolvedOne, NextDone, AsapInstance.Extend, Records, FieldsOf, Visited;
    AsapInstance.Associative(front, records, if removed then [] else [aitm]);
  }

  /** The walk is over: a transmission failed. */
  lemma Fails(p: PassInput, walk: Walk, front: seq<Message>, kept: seq<Node>, rest: seq<Node>, records: seq<Message>, w: Progress,
              aitm: Message, removed: bool, sent: seq<Message>, resolved: seq<Resolution>, done: nat)
    requires OnTheWay(p, walk, front, kept, rest, records, w) && rest != [] && rest[0] !in kept && rest[0] !in rest[1..]
    requires Decided(p, FieldsOf(w.c, rest[0]), w.done, aitm, removed, true, sent, resolved, done)
    ensures walk == Walk(walk.kept, None, w.sent, w.resolved, true)
    ensures Records(kept + rest, w.c[rest[0] := aitm]) == front + walk.kept
  {
    RecordsCons(rest, w.c);
    AsapInstance.WalkOne(p, Records(rest, w.c), w.done, w.cursor, records, w.sent, w.resolved);
    FailedHere(kept, rest, w.c, aitm);
    hide Transmit, Tried, AsapInstance.Extend, Records, FieldsOf;
    AsapInstance.Associative(front, records, [aitm] + Records(rest, w.c)[1..]);
  }

  /** The walk is over: everything was visited. */
  lemma Ends(p: PassInput, walk: Walk, front: seq<Message>, kept: seq<Node>, records: seq<Message>, w: Progress)
    requires OnTheWay(p, walk, front, kept, [], records, w)
    ensures walk == Walk(walk.kept, w.cursor, w.sent, w.resolved, false)
    ensures Records(kept + [], w.c) == front + walk.kept
  {
    assert kept + [] == kept && Records([], w.c) == [];
    AsapInstance.NothingToTransmit(p, w.done, w.cursor, records, w.sent, w.resolved);
  }

  /** Transmits what is linked behind LastAITM: from node `start` on.  The requests that stay
      in the queue, their order and their new fields, what was sent and what was resolved are
      those of the walk that the theorems on whole runs are about. */
  method TransmitLinked(port: MessagePort, content: Content, start: Node?, last: Option<nat>, cfg: Config, connected: bool,
                        failAt: Option<nat>, clock: nat -> nat, ghost before: seq<Node>, ghost behind: seq<Node>)
      returns (w: Progress, failed: bool)
    requires port.Valid() && port.Messages() == before + behind && start == First(behind)
    modifies port.Queue, port.Queue.node, port.Messages()
    ensures port.Valid()
    ensures var walk := Transmit(PassInput(cfg, connected, failAt, clock), Records(behind, content), 0, last);
      && Records(port.Messages(), w.c) == Records(before, content) + walk.kept
      && w.cursor == walk.last && w.sent == walk.sent && w.resolved == walk.resolved && failed == walk.failed
  {
    ghost var p := PassInput(cfg, connected, failAt, clock);
    ghost var all, front := port.Messages(), Records(before, content);
    ghost var kept, rest, records := before, behind, [];
    ghost var walk := Transmit(p, Records(behind, content), 0, last);
    w, failed := Progress(content, 0, last, [], []), false;
    var message := start;
    Begins(p, before, behind, content, last);
    hide Transmit, Records, FieldsOf, Visited, OnTheWay, Decided, Within, Proceed, Ring, DoubleLinkedRingList.Valid;
    while message != null
      invariant port.Valid() && port.Messages() == kept + rest && Within(port.Messages(), all)
      invariant message == First(rest) && !failed
      invariant OnTheWay(p, walk, front, kept, rest, records, w)
      decreases |rest|
    {
      OnlyHere(port, kept, rest);
      var aitm, removed, sent, resolved, done;
      aitm, removed, failed, sent, resolved, done := Decide(cfg, connected, failAt, clock, FieldsOf(w.c, message), w.done);
      if failed {
        Fails(p, walk, front, kept, rest, records, w, aitm, removed, sent, resolved, done);
        w := w.(c := w.c[message := aitm], cursor := None);
        return;
      }
      Proceeds(p, walk, front, kept, rest, records, w, aitm, removed, sent, resolved, done);
      w := Proceed(w, message, aitm, removed, connected, sent, resolved, done);
      var next := port.Visit(message, removed, kept, rest, all);
      records := records + if removed then [] else [aitm];
      kept, rest, message := Visited(kept, message, removed), rest[1..], next;
    }
    Ends(p, walk, front, kept, records, w);
  }
}
