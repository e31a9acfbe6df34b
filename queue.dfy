/**
 * The hand-rolled FIFO queue: a doubly linked list of `Item`s. `Enqueue`
 * links a new item in at `beginning`, `Dequeue` unlinks the item at `end`.
 * The ghost `nodes` lists the items from `end` (oldest) to `beginning`
 * (newest), and `Contents` lists their values in the same order.
 */
module Fifo {

  import opened Wrappers

  /** A node of the list: `next` points towards `end` (older), `prev` towards `beginning` (newer). */
  class Item<E> {
    var data: E
    var next: Item?<E>
    var prev: Item?<E>

    constructor (data: E, next: Item?<E>)
      ensures this.data == data && this.next == next && this.prev == null
    {
      this.data := data;
      this.next := next;
      this.prev := null;
    }
  }

  class Queue<E> {
    var beginning: Item?<E>
    var end: Item?<E>

    /** The linked items, oldest first. */
    ghost var nodes: seq<Item<E>>
    /** The queued values, oldest first: `Contents[0]` is the next one out. */
    ghost var Contents: seq<E>
    ghost var Repr: set<object>

    /**
     * The link invariant: `beginning` and `end` are both null exactly when the
     * list is empty, and `prev`/`next` are mutually consistent along the chain.
     */
    ghost predicate Valid()
      reads this, Repr
    {
      this in Repr &&
      |nodes| == |Contents| &&
      (forall i :: 0 <= i < |nodes| ==> nodes[i] in Repr && nodes[i].data == Contents[i]) &&
      (forall i, j :: 0 <= i < j < |nodes| ==> nodes[i] != nodes[j]) &&
      (nodes == [] ==> beginning == null && end == null) &&
      (nodes != [] ==>
        end == nodes[0] && beginning == nodes[|nodes| - 1] &&
        end.next == null && beginning.prev == null) &&
      (forall i :: 0 <= i < |nodes| - 1 ==> nodes[i].prev == nodes[i + 1] && nodes[i + 1].next == nodes[i])
    }

    /** A new queue is empty. */
    constructor ()
      ensures Valid() && fresh(Repr)
      ensures Contents == []
    {
      beginning := null;
      end := null;
      nodes := [];
      Contents := [];
      Repr := {this};
    }

    /** `isEmpty`: true exactly when nothing is queued. */
    function IsEmpty(): (r: bool)
      reads this, Repr
      requires Valid()
      ensures r <==> Contents == []
    {
      beginning == null
    }

    /** Adds `value` at the back of the queue. */
    method Enqueue(value: E)
      requires Valid()
      modifies Repr
      ensures Valid() && fresh(Repr - old(Repr))
      ensures Contents == old(Contents) + [value]
    {
      var newItem := new Item(value, beginning);
      if beginning != null {
        beginning.prev := newItem;
      }
      beginning := newItem;
      if end == null {
        end := beginning;
      }
      nodes := nodes + [newItem];
      Contents := Contents + [value];
      Repr := Repr + {newItem};
    }

    /**
     * Removes and returns the oldest value. On an empty queue the Java code
     * throws `NoSuchElementException`; here that is `None`, with the queue unchanged.
     */
    method Dequeue() returns (r: Option<E>)
      requires Valid()
      modifies Repr
      ensures Valid() && Repr == old(Repr)
      ensures old(Contents) == [] ==>
        r == None && Contents == old(Contents) && beginning == old(beginning) && end == old(end)
      ensures old(Contents) != [] ==>
        r == Some(old(Contents)[0]) && Contents == old(Contents)[1..]
      ensures |old(Contents)| == 1 ==> beginning == null && end == null
    {
      if IsEmpty() {
        return None;
      }
      var data := end.data;
      if beginning == end {
        end := null;
        beginning := null;
      } else {
        assert |nodes| >= 2 && end.prev == nodes[1];
        end := end.prev;
        end.next := null;
      }
      nodes := nodes[1..];
      Contents := Contents[1..];
      return Some(data);
    }
  }

  /** N enqueues followed by N dequeues give back the values in enqueue order. */
  method EnqueueAllThenDequeueAll<E>(xs: seq<E>) returns (ys: seq<E>)
    ensures ys == xs
  {
    var q := new Queue<E>();
    for i := 0 to |xs|
      invariant q.Valid() && fresh(q.Repr)
      invariant q.Contents == xs[..i]
    {
      q.Enqueue(xs[i]);
    }
    ys := [];
    for i := 0 to |xs|
      invariant q.Valid() && fresh(q.Repr)
      invariant q.Contents == xs[i..] && ys == xs[..i]
    {
      var r := q.Dequeue();
      ys := ys + [r.value];
    }
  }

}
