/** The Queue ADT of Merge16/Queue.c: a headless, singly-linked, circular list
    of string nodes. The queue handle is the LAST node (null when the queue is
    empty) and the front of the queue is last.next. */
module CircularQueue {

  class Node {
    var line: string
    var next: Node?

    constructor (s: string)
      ensures line == s && next == null
    {
      line := s;
      next := null;
    }
  }

  class Queue {
    /** The handle *q of the C code: the tail node, or null. */
    var last: Node?

    /** The queued strings, front first. */
    ghost var Contents: seq<string>
    /** The ring of nodes, front first: Nodes[i] holds Contents[i]. */
    ghost var Nodes: seq<Node>
    ghost var Repr: set<object>

    /** Representation invariant: *q is the last node of the ring, each node
        points to its successor, the last one points back to the head, and the
        ring holds exactly the queued strings. */
    ghost predicate Valid()
      reads this, Repr
    {
      && this in Repr
      && |Nodes| == |Contents|
      && (forall i :: 0 <= i < |Nodes| ==> Nodes[i] in Repr)
      && (forall i, j :: 0 <= i < j < |Nodes| ==> Nodes[i] != Nodes[j])
      && (forall i {:trigger Nodes[i]} :: 0 <= i < |Nodes| ==> Nodes[i].line == Contents[i])
      && (forall i :: 0 <= i < |Nodes| - 1 ==> Nodes[i].next == Nodes[i + 1])
      && (Nodes == [] ==> last == null)
      && (Nodes != [] ==> last == Nodes[|Nodes| - 1] && last.next == Nodes[0])
    }

    /** createQ: *q = NULL. */
    constructor ()
      ensures Valid() && fresh(Repr)
      ensures Contents == []
    {
      last := null;
      Contents := [];
      Nodes := [];
      Repr := {this};
    }

    /** addQ: a new node becomes the tail and points to the old head. The
        malloc-failure result is not modelled. */
    method AddQ(s: string)
      requires Valid()
      modifies Repr
      ensures Valid() && fresh(Repr - old(Repr))
      ensures Contents == old(Contents) + [s]
    {
      var n := new Node(s);
      if last == null {
        last := n;
        n.next := n;
      } else {
        var tail := last;
        var head := tail.next;
        last := n;
        tail.next := n;
        n.next := head;
      }
      Nodes := Nodes + [n];
      Contents := Contents + [s];
      Repr := Repr + {n};
    }

    /** isEmptyQ */
    method IsEmptyQ() returns (e: bool)
      requires Valid()
      ensures e <==> Contents == []
    {
      e := last == null;
    }

    /** headQ: the string at the front, read through the tail; false on an
        empty queue. The queue is not changed. */
    method HeadQ() returns (ok: bool, s: string)
      requires Valid()
      ensures ok <==> Contents != []
      ensures ok ==> s == Contents[0]
    {
      if last == null {
        ok, s := false, "";
      } else {
        var head := last.next;
        ok, s := true, head.line;
      }
    }

    /** removeQ: unlinks the front node. On an empty queue it reports false
        and changes nothing. */
    method RemoveQ() returns (ok: bool, s: string)
      requires Valid()
      modifies Repr
      ensures Valid() && Repr == old(Repr)
      ensures ok <==> old(Contents) != []
      ensures ok ==> s == old(Contents)[0] && Contents == old(Contents)[1..]
      ensures !ok ==> Contents == old(Contents)
    {
      if last == null {
        ok, s := false, "";
      } else {
        var tail := last;
        var head := tail.next;
        s := head.line;
        if head != tail {
          tail.next := head.next;
        } else {
          last := null;
        }
        ok := true;
        Nodes := Nodes[1..];
        Contents := Contents[1..];
      }
    }

    /** destroyQ: the nodes are released and *q becomes NULL. */
    method DestroyQ()
      requires Valid()
      modifies this
      ensures Valid() && Repr == old(Repr)
      ensures Contents == []
    {
      last := null;
      Nodes := [];
      Contents := [];
    }
  }

  /** FIFO order: enqueueing a run of strings into a new queue and then
      dequeueing just as many yields them in insertion order. */
  method FifoRoundTrip(xs: seq<string>) returns (ys: seq<string>)
    ensures ys == xs
  {
    var q := new Queue();
    var i := 0;
    while i < |xs|
      invariant 0 <= i <= |xs|
      invariant q.Valid() && fresh(q.Repr)
      invariant q.Contents == xs[..i]
    {
      q.AddQ(xs[i]);
      assert xs[..i + 1] == xs[..i] + [xs[i]];
      i := i + 1;
    }
    ys := [];
    while i > 0
      invariant 0 <= i <= |xs|
      invariant q.Valid() && fresh(q.Repr)
      invariant ys + q.Contents == xs
      invariant |q.Contents| == i
    {
      var ok, s := q.RemoveQ();
      ys := ys + [s];
      i := i - 1;
    }
  }
}
