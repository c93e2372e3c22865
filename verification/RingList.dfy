/**
 The intrusive doubly linked ring list and the message port built on it: a heap
 of nodes whose Prev and Next pointers represent a sequence.

 A list element embeds its node as first member in the source and is cast to and
 from it; here node and element are one object.
 */
module RingList {

  class Node {
    var Prev: Node?
    var Next: Node?
    var ReplyPort: MessagePort?

    constructor ()
      ensures Prev == null && Next == null && ReplyPort == null
    {
      Prev, Next, ReplyPort := null, null, null;
    }
  }

  /** The node at position `i` of the ring whose sentinel is at both ends. */
  ghost function At(sentinel: Node, nodes: seq<Node>, i: int): Node
    requires 0 <= i <= |nodes| + 1
  {
    if 1 <= i <= |nodes| then nodes[i - 1] else sentinel
  }

  /** The pointers of the sentinel and the nodes form exactly this ring. */
  ghost predicate Ring(sentinel: Node, nodes: seq<Node>)
    reads sentinel, nodes
  {
    && Distinct(sentinel, nodes)
    && (forall i {:trigger At(sentinel, nodes, i)} :: 0 <= i <= |nodes| ==>
          At(sentinel, nodes, i).Next == At(sentinel, nodes, i + 1))
    && (forall i {:trigger At(sentinel, nodes, i)} :: 0 <= i <= |nodes| ==>
          At(sentinel, nodes, i + 1).Prev == At(sentinel, nodes, i))
  }

  /** Different positions are different nodes, on either side of a link. */
  lemma DistinctAt(sentinel: Node, nodes: seq<Node>, i: int, j: int)
    requires Distinct(sentinel, nodes)
    requires 0 <= i <= |nodes| && 0 <= j <= |nodes| && i != j
    ensures At(sentinel, nodes, i) != At(sentinel, nodes, j)
    ensures At(sentinel, nodes, i + 1) != At(sentinel, nodes, j + 1)
  {
  }

  ghost function Inserted(nodes: seq<Node>, at: nat, node: Node): (r: seq<Node>)
    requires at <= |nodes|
    ensures |r| == |nodes| + 1
  {
    nodes[..at] + [node] + nodes[at..]
  }

  ghost function Removed(nodes: seq<Node>, at: nat): (r: seq<Node>)
    requires at < |nodes|
    ensures |r| == |nodes| - 1
  {
    nodes[..at] + nodes[at + 1..]
  }

  predicate Distinct(sentinel: Node, nodes: seq<Node>) {
    sentinel !in nodes && forall i, j :: 0 <= i < j < |nodes| ==> nodes[i] != nodes[j]
  }

  /** Ring positions before and after an insertion. */
  lemma InsertedAt(sentinel: Node, nodes: seq<Node>, node: Node, at: nat, i: int)
    requires at <= |nodes| && 0 <= i <= |nodes| + 2
    ensures At(sentinel, Inserted(nodes, at, node), i) ==
              if i <= at then At(sentinel, nodes, i) else if i == at + 1 then node else At(sentinel, nodes, i - 1)
  {
  }

  lemma InsertedDistinct(sentinel: Node, nodes: seq<Node>, node: Node, at: nat)
    requires at <= |nodes| && Distinct(sentinel, nodes) && node != sentinel && node !in nodes
    ensures Distinct(sentinel, Inserted(nodes, at, node))
  {
  }

  /** A node that is not in the ring is at none of its positions. */
  lemma NotAt(sentinel: Node, nodes: seq<Node>, node: Node, i: int)
    requires node != sentinel && node !in nodes && 0 <= i <= |nodes| + 1
    ensures At(sentinel, nodes, i) != node
  {
  }

  /** Inserts `node` behind the node at ring position `at`. */
  method AddAfter(after: Node, node: Node, ghost sentinel: Node, ghost nodes: seq<Node>, ghost at: nat)
    requires Ring(sentinel, nodes) && at <= |nodes| && after == At(sentinel, nodes, at)
    requires node != sentinel && node !in nodes
    modifies after`Next, node`Prev, node`Next, after.Next`Prev
    ensures Ring(sentinel, Inserted(nodes, at, node))
  {
    ghost var next := At(sentinel, nodes, at + 1);
    assert after.Next == next;
    ghost var nodes' := Inserted(nodes, at, node);
    InsertedDistinct(sentinel, nodes, node, at);
    NotAt(sentinel, nodes, node, at);
    NotAt(sentinel, nodes, node, at + 1);
    hide Inserted, Distinct, At;
    node.Next := after.Next;
    node.Prev := after;
    after.Next.Prev := node;
    after.Next := node;
    forall i | 0 <= i <= |nodes'|
      ensures At(sentinel, nodes', i).Next == At(sentinel, nodes', i + 1)
      ensures At(sentinel, nodes', i + 1).Prev == At(sentinel, nodes', i)
    {
      InsertedAt(sentinel, nodes, node, at, i);
      InsertedAt(sentinel, nodes, node, at, i + 1);
      if i < at || i > at + 1 {
        var k := if i < at then i else i - 1;
        NotAt(sentinel, nodes, node, k);
        NotAt(sentinel, nodes, node, k + 1);
        DistinctAt(sentinel, nodes, k, at);
        assert old(At(sentinel, nodes, k).Next) == At(sentinel, nodes, k + 1);
        assert old(At(sentinel, nodes, k + 1).Prev) == At(sentinel, nodes, k);
      }
    }
  }

  /** Ring positions before and after a removal. */
  lemma RemovedAt(sentinel: Node, nodes: seq<Node>, at: nat, i: int)
    requires at < |nodes| && 0 <= i <= |nodes|
    ensures At(sentinel, Removed(nodes, at), i) == if i <= at then At(sentinel, nodes, i) else At(sentinel, nodes, i + 1)
  {
  }

  lemma RemovedDistinct(sentinel: Node, nodes: seq<Node>, at: nat)
    requires at < |nodes| && Distinct(sentinel, nodes)
    ensures Distinct(sentinel, Removed(nodes, at))
  {
  }

  /** Unlinks the node, which knows its place only through its own pointers. */
  method RemNode(node: Node, ghost sentinel: Node, ghost nodes: seq<Node>, ghost at: nat)
    requires Ring(sentinel, nodes) && at < |nodes| && nodes[at] == node
    requires node.Prev != null && node.Next != null
    modifies node`Prev, node`Next, node.Prev`Next, node.Next`Prev
    ensures Ring(sentinel, Removed(nodes, at))
    ensures node.Prev == null && node.Next == null
  {
    assert At(sentinel, nodes, at).Next == node && At(sentinel, nodes, at + 1) == node;
    assert node.Next == At(sentinel, nodes, at + 2) && node.Prev == At(sentinel, nodes, at);
    ghost var nodes' := Removed(nodes, at);
    RemovedDistinct(sentinel, nodes, at);
    DistinctAt(sentinel, nodes, at, at + 1);
    hide Removed, Distinct, At;
    node.Prev.Next := node.Next;
    node.Next.Prev := node.Prev;
    node.Prev := null;
    node.Next := null;
    forall i | 0 <= i <= |nodes'|
      ensures At(sentinel, nodes', i).Next == At(sentinel, nodes', i + 1)
      ensures At(sentinel, nodes', i + 1).Prev == At(sentinel, nodes', i)
    {
      RemovedAt(sentinel, nodes, at, i);
      RemovedAt(sentinel, nodes, at, i + 1);
      if i != at {
        var k := if i < at then i else i + 1;
        DistinctAt(sentinel, nodes, k, at);
        DistinctAt(sentinel, nodes, k, at + 1);
        assert old(At(sentinel, nodes, k).Next) == At(sentinel, nodes, k + 1);
        assert old(At(sentinel, nodes, k + 1).Prev) == At(sentinel, nodes, k);
      }
    }
  }

  class DoubleLinkedRingList {
    const node: Node
    const head: Node
    ghost var Contents: seq<Node>

    ghost predicate Valid()
      reads this, node, Contents
    {
      head == node && Ring(node, Contents)
    }

    constructor ()
      ensures Valid() && Contents == [] && fresh(node)
    {
      var sentinel := new Node();
      sentinel.Prev, sentinel.Next := sentinel, sentinel;
      node, head, Contents := sentinel, sentinel, [];
    }

    method AddHead(n: Node)
      requires Valid() && n != node && n !in Contents
      modifies this, node, n, Contents
      ensures Valid() && Contents == [n] + old(Contents)
      ensures n.ReplyPort == old(n.ReplyPort)
    {
      ghost var nodes := [n] + Contents;
      assert At(node, Contents, 0).Next == At(node, Contents, 1);
      assert Inserted(Contents, 0, n) == nodes;
      AddAfter(node, n, node, Contents, 0);
      hide Ring;
      Contents := nodes;
    }

    method AddTail(n: Node)
      requires Valid() && n != node && n !in Contents
      modifies this, node, n, Contents
      ensures Valid() && Contents == old(Contents) + [n]
      ensures n.ReplyPort == old(n.ReplyPort)
    {
      ghost var nodes := Contents + [n];
      assert At(node, Contents, |Contents|).Next == node;
      assert Inserted(Contents, |Contents|, n) == nodes;
      AddAfter(node.Prev, n, node, Contents, |Contents|);
      hide Ring;
      Contents := nodes;
    }

    method Remove(n: Node, ghost at: nat)
      requires Valid() && at < |Contents| && Contents[at] == n
      modifies this, node, Contents
      ensures Valid() && Contents == old(Contents)[..at] + old(Contents)[at + 1..]
      ensures n.Prev == null && n.Next == null && n.ReplyPort == old(n.ReplyPort)
    {
      assert At(node, Contents, at).Next == n && At(node, Contents, at + 1) == n;
      assert n.Next == At(node, Contents, at + 2) && n.Prev == At(node, Contents, at);
      RemNode(n, node, Contents, at);
      Contents := Contents[..at] + Contents[at + 1..];
    }
  }

  /** A queue of messages between threads; the signal that guards it is not modelled. */
  class MessagePort {
    const Queue: DoubleLinkedRingList

    ghost predicate Valid()
      reads this, Queue, Queue.node, Queue.Contents
    {
      Queue.Valid()
    }

    ghost function Messages(): seq<Node>
      reads this, Queue
    {
      Queue.Contents
    }

    /** Whether a node may be put into this port: it must not be linked in here. */
    ghost predicate Accepts(message: Node)
      reads this, Queue
    {
      message != Queue.node && message !in Queue.Contents
    }

    constructor ()
      ensures Valid() && Messages() == [] && fresh(Queue) && fresh(Queue.node)
    {
      Queue := new DoubleLinkedRingList();
    }

    method GetFirstMessage() returns (first: Node?)
      requires Valid()
      ensures first == if Messages() == [] then null else Messages()[0]
    {
      assert At(Queue.node, Messages(), 0).Next == At(Queue.node, Messages(), 1);
      var node := Queue.node.Next;
      if node != Queue.head {
        return node;
      }
      return null;
    }

    method GetNextMessage(message: Node, ghost at: nat) returns (next: Node?)
      requires Valid() && at < |Messages()| && Messages()[at] == message
      ensures next == if at + 1 == |Messages()| then null else Messages()[at + 1]
    {
      assert At(Queue.node, Messages(), at + 1).Next == At(Queue.node, Messages(), at + 2);
      var node := message.Next;
      if node != Queue.head {
        return node;
      }
      return null;
    }

    method IsFirstMessage(message: Node?) returns (result: bool)
      requires Valid()
      ensures result <==> message == if Messages() == [] then null else Messages()[0]
    {
      var first := GetFirstMessage();
      result := first == message;
    }

    method Enqueue(message: Node, replyPort: MessagePort?)
      requires Valid() && Accepts(message)
      modifies Queue, Queue.node, message, Messages()
      ensures Valid() && Messages() == old(Messages()) + [message]
      ensures message.ReplyPort == replyPort
    {
      message.Prev, message.Next := null, null;
      message.ReplyPort := replyPort;
      Queue.AddTail(message);
    }

    method RemoveMessage(message: Node, ghost at: nat)
      requires Valid() && at < |Messages()| && Messages()[at] == message
      modifies Queue, Queue.node, Messages()
      ensures Valid() && Messages() == old(Messages())[..at] + old(Messages())[at + 1..]
      ensures message.Prev == null && message.Next == null && message.ReplyPort == old(message.ReplyPort)
    {
      Queue.Remove(message, at);
    }

    method Dequeue() returns (message: Node?)
      requires Valid()
      modifies Queue, Queue.node, Messages()
      ensures Valid()
      ensures old(Messages()) == [] ==> message == null && Messages() == []
      ensures old(Messages()) != [] ==>
        && message == old(Messages())[0]
        && Messages() == old(Messages())[1..]
        && message.ReplyPort == old(Messages()[0].ReplyPort)
    {
      message := GetFirstMessage();
      if message != null {
        Queue.Remove(message, 0);
      }
    }

    /** One step of a walk that may take messages out: the successor is looked up before the
        message is removed.  `kept` was visited before, `rest` begins with the message. */
    method Visit(message: Node, removed: bool, ghost kept: seq<Node>, ghost rest: seq<Node>, ghost all: seq<Node>)
        returns (next: Node?)
      requires Valid() && Messages() == kept + rest && rest != [] && rest[0] == message && Within(Messages(), all)
      modifies Queue, Queue.node, all
      ensures Valid() && Messages() == Visited(kept, message, removed) + rest[1..] && Within(Messages(), all)
      ensures next == First(rest[1..])
    {
      next := GetNextMessage(message, |kept|);
      if removed {
        RemoveMessage(message, |kept|);
      }
    }
  }

  predicate Within(ms: seq<Node>, all: seq<Node>) { forall i :: 0 <= i < |ms| ==> ms[i] in all }

  ghost function Visited(kept: seq<Node>, message: Node, removed: bool): seq<Node> {
    if removed then kept else kept + [message]
  }

  ghost function First(ms: seq<Node>): Node? { if ms == [] then null else ms[0] }

  /** Two ports share no list and no node. */
  ghost predicate Separate(a: MessagePort, b: MessagePort)
    reads a, b, a.Queue, b.Queue
  {
    && a.Queue != b.Queue && a.Queue.node != b.Queue.node
    && a.Queue.node !in b.Messages() && b.Queue.node !in a.Messages()
    && (forall n :: n in a.Messages() ==> n !in b.Messages())
  }

  /** Sends a message back to the port named in it; `other` stands for any port
      that is not involved. */
  method Reply(message: Node, ghost reply: MessagePort, ghost other: MessagePort)
    requires message.ReplyPort == reply && reply.Valid() && reply.Accepts(message)
    requires other.Valid() && other.Accepts(message) && Separate(other, reply)
    modifies message, reply.Queue, reply.Queue.node, reply.Messages()
    ensures reply.Valid() && reply.Messages() == old(reply.Messages()) + [message]
    ensures other.Valid() && other.Messages() == old(other.Messages()) && Separate(other, reply)
    ensures message.ReplyPort == null
  {
    message.ReplyPort.Enqueue(message, null);
    ghost var sentinel, nodes := other.Queue.node, other.Messages();
    forall i | 0 <= i <= |nodes|
      ensures At(sentinel, nodes, i).Next == At(sentinel, nodes, i + 1)
      ensures At(sentinel, nodes, i + 1).Prev == At(sentinel, nodes, i)
    {
      assert At(sentinel, nodes, i) == sentinel || At(sentinel, nodes, i) in nodes;
      assert At(sentinel, nodes, i + 1) == sentinel || At(sentinel, nodes, i + 1) in nodes;
      assert old(At(sentinel, nodes, i).Next) == At(sentinel, nodes, i + 1);
      assert old(At(sentinel, nodes, i + 1).Prev) == At(sentinel, nodes, i);
    }
  }

  /** Empties a port; the messages come out in the order in which they were put in. */
  method Drain(port: MessagePort) returns (out: seq<Node>)
    requires port.Valid()
    modifies port.Queue, port.Queue.node, port.Messages()
    ensures port.Valid() && port.Messages() == []
    ensures out == old(port.Messages())
  {
    out := [];
    ghost var all := port.Messages();
    var message := port.Dequeue();
    while message != null
      invariant port.Valid()
      invariant message != null ==> |out| < |all| && message == all[|out|] && port.Messages() == all[|out| + 1..]
      invariant message == null ==> port.Messages() == [] && |out| == |all|
      invariant out == all[..|out|]
      decreases |all| - |out|
    {
      out := out + [message];
      assert forall n :: n in port.Messages() ==> n in all;
      message := port.Dequeue();
    }
  }

  ghost function Without(ms: seq<Node>, doomed: set<Node>): seq<Node> {
    if ms == [] then []
    else (if ms[0] in doomed then [] else [ms[0]]) + Without(ms[1..], doomed)
  }

  lemma Regroup(a: seq<Node>, x: Node, b: seq<Node>)
    ensures a + ([x] + b) == a + [x] + b
  {
  }

  lemma WithoutStep(kept: seq<Node>, rest: seq<Node>, doomed: set<Node>)
    requires rest != []
    ensures Visited(kept, rest[0], rest[0] in doomed) + Without(rest[1..], doomed) == kept + Without(rest, doomed)
  {
    var w := Without(rest[1..], doomed);
    assert Without(rest, doomed) == (if rest[0] in doomed then [] else [rest[0]]) + w;
    hide Without;
    if rest[0] in doomed { assert [] + w == w; } else { Regroup(kept, rest[0], w); }
  }

  /** The walk over a queue that takes messages out on its way: exactly those go. */
  method Sweep(port: MessagePort, doomed: set<Node>)
    requires port.Valid()
    modifies port.Queue, port.Queue.node, port.Messages()
    ensures port.Valid() && port.Messages() == Without(old(port.Messages()), doomed)
  {
    ghost var all := port.Messages();
    ghost var kept: seq<Node>, rest: seq<Node> := [], all;
    var message := port.GetFirstMessage();
    assert kept + all == all && kept + Without(all, doomed) == Without(all, doomed);
    hide Without, Visited, Within, Ring, DoubleLinkedRingList.Valid;
    while message != null
      invariant port.Valid() && port.Messages() == kept + rest && Within(port.Messages(), all)
      invariant message == First(rest)
      invariant kept + Without(rest, doomed) == Without(all, doomed)
      decreases |rest|
    {
      WithoutStep(kept, rest, doomed);
      var next := port.Visit(message, message in doomed, kept, rest, all);
      kept, rest, message := Visited(kept, message, message in doomed), rest[1..], next;
    }
    NothingLeft(kept, doomed);
  }

  lemma NothingLeft(kept: seq<Node>, doomed: set<Node>)
    ensures kept + [] == kept && kept + Without([], doomed) == kept
  {
  }
}
