/** packet_queue.c: a FIFO of packets, linked through the list node inside each packet.

Each method below is one critical section: the queue mutex is held from its first statement to its
last, except where a method says otherwise.  `contents` is the abstract value of the queue, and
`Valid` says that the pointers and the counter represent it.
 */
module PacketQueue {
  import opened IntrusiveList
  import opened Media
  import opened Memory
  import opened Timestamps

  /** struct packet_t.  Both producers fill a packet in before they enqueue it, and nothing writes
      to its fields afterwards, except for the links of its list node. */
  class Packet {
    const data: array?<byte>
    const dataLength: nat
    const list: ListHead<Packet?>
    const pts: int64
    const dts: int64
    const duration: int
    const flags: set<Flag>

    constructor (data: array?<byte>, dataLength: nat, pts: int64, dts: int64, duration: int, flags: set<Flag>)
      ensures this.data == data && this.dataLength == dataLength
      ensures this.pts == pts && this.dts == dts && this.duration == duration && this.flags == flags
      ensures list.container == this && fresh(list)
    {
      this.data, this.dataLength := data, dataLength;
      this.pts, this.dts, this.duration, this.flags := pts, dts, duration, flags;
      list := new ListHead(null);
      new;
      list.container := this;
    }
  }

  ghost function NodesOf(ps: seq<Packet>): set<ListHead<Packet?>> {
    set p | p in ps :: p.list
  }

  /** Freeing a packet together with its payload: the payload goes first (packet_queue.c:61-65). */
  ghost function BlocksOf(p: Packet): seq<object>
  {
    if p.data != null then [p.data, p] else [p]
  }

  /** The order in which the packets `ps` and their payloads are freed, one after the other. */
  ghost function BlocksOfAll(ps: seq<Packet>): seq<object>
  {
    if ps == [] then [] else BlocksOf(ps[0]) + BlocksOfAll(ps[1..])
  }

  lemma FreeFirstThenRest(freed: seq<object>, ps: seq<Packet>)
    requires ps != []
    ensures freed + BlocksOfAll(ps) == freed + BlocksOf(ps[0]) + BlocksOfAll(ps[1..])
  {
  }

  /** Block `a` is freed, and block `b` later. */
  ghost predicate Before(freed: seq<object>, a: object, b: object) {
    exists i, j :: 0 <= i < j < |freed| && freed[i] == a && freed[j] == b
  }

  /** `freed` are these packets and their payloads, each payload before its packet, and nothing else. */
  ghost predicate AreFreed(freed: seq<object>, ps: seq<Packet>) {
    && (forall k :: 0 <= k < |ps| ==> ps[k] in freed)
    && (forall k :: 0 <= k < |ps| && ps[k].data != null ==> Before(freed, ps[k].data, ps[k]))
    && (forall b :: b in freed ==> exists k :: 0 <= k < |ps| && (b == ps[k] || b == ps[k].data))
  }

  lemma {:induction false} BlocksAreFreed(ps: seq<Packet>)
    ensures AreFreed(BlocksOfAll(ps), ps)
  {
    if ps != [] {
      var p, rest := ps[0], ps[1..];
      var head, tail := BlocksOf(p), BlocksOfAll(rest);
      BlocksAreFreed(rest);
      var all := head + tail;
      if p.data != null {
        assert all[0] == p.data && all[1] == p;
      } else {
        assert all[0] == p;
      }
      forall k | 1 <= k < |ps| ensures ps[k] in all && (ps[k].data != null ==> Before(all, ps[k].data, ps[k])) {
        assert ps[k] == rest[k - 1];
        LaterStillBefore(head, tail, ps[k].data, ps[k]);
      }
      forall b | b in all ensures exists k :: 0 <= k < |ps| && (b == ps[k] || b == ps[k].data) {
        if b in head {
          assert b == ps[0] || b == ps[0].data;
        } else {
          var k :| 0 <= k < |rest| && (b == rest[k] || b == rest[k].data);
          assert rest[k] == ps[k + 1];
        }
      }
    }
  }

  lemma LaterStillBefore(head: seq<object>, tail: seq<object>, a: object?, b: object)
    ensures a != null && Before(tail, a, b) ==> Before(head + tail, a, b)
  {
    if a != null && Before(tail, a, b) {
      var i, j :| 0 <= i < j < |tail| && tail[i] == a && tail[j] == b;
      assert (head + tail)[|head| + i] == a && (head + tail)[|head| + j] == b;
    }
  }

  /** packet_queue_free_packet */
  method FreePacket(heap: Heap, item: Packet?, freeData: bool)
    requires item != null ==> heap.Live(item)
    requires item != null && freeData && item.data != null ==> heap.Live(item.data) && item.data as object != item
    modifies heap`freed
    ensures heap.freed == old(heap.freed) + if item == null then [] else if freeData then BlocksOf(item) else [item]
    ensures item != null && freeData && item.data != null ==> heap.freed == old(heap.freed) + [item.data, item]
    ensures item != null && !(freeData && item.data != null) ==> heap.freed == old(heap.freed) + [item]
    ensures old(heap.Once()) ==> heap.Once()
  {
    if item == null {
      return;
    }
    if item.data != null && freeData {
      heap.Free(item.data);
    }
    heap.Free(item);
  }

  /** struct packet_queue_t */
  class Queue {
    const queue: ListHead<Packet?>
    var queueCount: int
    var queueFinished: bool
    ghost var contents: seq<Packet>
    ghost var ring: seq<ListHead<Packet?>>  // the head, then the nodes of `contents`

    /** The pointers represent `contents`. */
    ghost predicate Linked()
      reads this, ring
    {
      && Cycle(ring)
      && ring[0] == queue
      && |contents| == |ring| - 1
      && forall i :: 0 <= i < |contents| ==> contents[i].list == ring[i + 1] && ring[i + 1].container == contents[i]
    }

    /** What holds whenever the mutex is free. */
    ghost predicate Valid()
      reads this, ring
    {
      Linked() && queueCount == |contents|
    }

    /** The packet can be linked into this queue: it is not in it. */
    ghost predicate Linkable(p: Packet)
      reads this, p.list
    {
      p !in contents && p.list != queue && p.list.container == p
    }

    /** packet_queue_init */
    constructor ()
      ensures Valid() && contents == [] && !queueFinished
      ensures fresh(queue) && fresh(ring)
    {
      queue := new ListHead(null);
      queueCount := 0;
      queueFinished := false;
      contents := [];
      new;
      ring := [queue];
    }

    lemma LinkableIsNotLinked(p: Packet)
      requires Valid() && Linkable(p)
      ensures p.list !in ring
    {
      assert forall i :: 0 <= i < |contents| ==> ring[i + 1].container == contents[i] != p;
      assert forall i :: 0 <= i < |ring| ==> i == 0 || ring[i] == contents[i - 1].list;
    }

    /** packet_queue_add_item.  `signalled` tells whether the condition variable was signalled. */
    method AddItem(packet: Packet?) returns (signalled: bool)
      requires Valid()
      requires packet != null ==> Linkable(packet)
      modifies this`queueCount, this`contents, this`ring, ring`next, ring`prev
      modifies (if packet != null then {packet.list} else {})`next, (if packet != null then {packet.list} else {})`prev
      ensures Valid()
      ensures contents == old(contents) + if packet == null then [] else [packet]
      ensures ring == old(ring) + if packet == null then [] else [packet.list]
      ensures signalled <==> packet != null && old(contents) == []
    {
      signalled := false;
      if packet == null {
        return;
      }
      LinkableIsNotLinked(packet);
      EmptyMeansNoEntries(ring);
      if Empty(queue) {
        AddTail(packet.list, queue, ring);
        signalled := true;
      } else {
        AddTail(packet.list, queue, ring);
      }
      queueCount := queueCount + 1;
      contents, ring := contents + [packet], ring + [packet.list];
    }

    /** list_del of the first entry. */
    method UnlinkFirst(entry: ListHead<Packet?>) returns (ghost item: Packet)
      requires Linked() && |ring| >= 2 && entry == ring[1]
      modifies this`contents, this`ring, ring`next, ring`prev
      ensures Linked() && item == old(contents[0]) == entry.container
      ensures contents == old(contents[1..]) && ring == Remove(old(ring), 1)
      ensures entry.next == null && entry.prev == null
    {
      item := contents[0];
      Del(entry, ring, 1);
      contents, ring := contents[1..], Remove(ring, 1);
    }

    /** Lines 77-80 and 99-102: unlink the first packet of a non-empty queue. */
    method TakeFirst() returns (item: Packet)
      requires Valid() && contents != []
      modifies this`queueCount, this`contents, this`ring, ring`next, ring`prev
      ensures Valid()
      ensures old(contents) == [item] + contents
      ensures ring == Remove(old(ring), 1)
      ensures item.list.next == null && item.list.prev == null && Linkable(item)
    {
      LinksAreInverse(ring, 0);
      assert queue.next == ring[1] && ring[1].container == contents[0];
      item := queue.next.container;
      ghost var _ := UnlinkFirst(queue.next);
      queueCount := queueCount - 1;
    }

    /** packet_queue_get_next_item_asynch */
    method GetNextItemAsynch() returns (item: Packet?)
      requires Valid()
      modifies this`queueCount, this`contents, this`ring, ring`next, ring`prev
      ensures Valid()
      ensures old(contents) == [] ==> item == null && contents == []
      ensures old(contents) != [] ==> item != null && old(contents) == [item] + contents && Linkable(item)
    {
      EmptyMeansNoEntries(ring);
      if Empty(queue) {
        item := null;
      } else {
        item := TakeFirst();
      }
    }

    ghost predicate AllLinkable(ps: seq<Packet>)
      reads this, NodesOf(ps)
    {
      && Distinct(ps)
      && forall i :: 0 <= i < |ps| ==> Linkable(ps[i])
    }

    /** What other threads do to the queue while the consumer has given up the mutex. */
    method AddAll(ps: seq<Packet>)
      requires Valid() && AllLinkable(ps)
      modifies this`queueCount, this`contents, this`ring, ring`next, ring`prev, NodesOf(ps)`next, NodesOf(ps)`prev
      ensures Valid()
      ensures contents == old(contents) + ps
      ensures forall n :: n in ring ==> n in old(ring) || n in NodesOf(ps)
    {
      for i := 0 to |ps|
        invariant Valid()
        invariant contents == old(contents) + ps[..i]
        invariant forall j :: i <= j < |ps| ==> Linkable(ps[j])
        invariant forall n :: n in ring ==> n in old(ring) || n in NodesOf(ps)
      {
        var _ := AddItem(ps[i]);
      }
    }

    /** pthread_cond_wait of line 75: `batch` comes first among the packets still to arrive. */
    method Wait(batch: seq<Packet>, ghost arrivals: seq<Packet>, ghost nodes: set<ListHead<Packet?>>)
      requires Valid() && contents == [] && AllLinkable(arrivals)
      requires batch <= arrivals
      requires NodesOf(arrivals) <= nodes && forall n :: n in ring ==> n in nodes
      modifies this`queueCount, this`contents, this`ring, nodes`next, nodes`prev
      ensures Valid() && contents == batch
      ensures batch == [] ==> AllLinkable(arrivals)
      ensures forall n :: n in ring ==> n in nodes
    {
      assert forall i :: 0 <= i < |batch| ==> batch[i] == arrivals[i];
      AddAll(batch);
    }

    /** packet_queue_get_next_item.  The wait of line 75 gives up the mutex; `wakeups[k]` are the
        packets other threads have added by the time the consumer holds it again after its wait
        number k (none for a spurious wakeup).  The result is null if the consumer is still asleep
        when no wakeup is left; `waits` is the number of waits it went through. */
    method GetNextItem(wakeups: seq<seq<Packet>>) returns (item: Packet?, waits: nat)
      requires Valid() && AllLinkable(Flatten(wakeups))
      modifies this`queueCount, this`contents, this`ring, ring`next, ring`prev
      modifies NodesOf(Flatten(wakeups))`next, NodesOf(Flatten(wakeups))`prev
      ensures Valid() && waits <= |wakeups|
      ensures old(contents) != [] ==> waits == 0
      ensures waits > 0 ==> Flatten(wakeups[..waits - 1]) == []
      ensures item == null ==> waits == |wakeups| && contents == old(contents) + Flatten(wakeups) == []
      ensures item != null ==> [item] + contents == old(contents) + Flatten(wakeups[..waits])
    {
      waits := 0;
      ghost var arrivals := Flatten(wakeups);
      ghost var nodes := (set n | n in ring) + NodesOf(arrivals);
      EmptyMeansNoEntries(ring);
      while Empty(queue) && waits < |wakeups|
        invariant Valid() && waits <= |wakeups|
        invariant Empty(queue) <==> contents == []
        invariant contents == old(contents) + Flatten(wakeups[..waits])
        invariant old(contents) != [] ==> waits == 0
        invariant waits > 0 ==> Flatten(wakeups[..waits - 1]) == []
        invariant contents == [] ==> AllLinkable(arrivals)
        invariant forall n :: n in ring ==> n in nodes
      {
        FlattenFirst(wakeups, waits);
        Wait(wakeups[waits], arrivals, nodes);
        waits := waits + 1;
        EmptyMeansNoEntries(ring);
      }
      assert wakeups[..|wakeups|] == wakeups;
      if Empty(queue) {
        item := null;
      } else {
        assert forall i :: 0 <= i < |ring| ==> ring[i] in nodes;
        item := TakeFirst();
      }
    }

    /** The packets of the queue and their payloads are allocated blocks, all different. */
    ghost predicate Owned(heap: Heap)
      reads this, heap
    {
      && (forall i :: 0 <= i < |contents| ==> heap.Live(contents[i]))
      && (forall i :: 0 <= i < |contents| && contents[i].data != null ==> heap.Live(contents[i].data))
      && (forall i, j :: 0 <= i < j < |contents| && contents[i].data != null ==> contents[i].data != contents[j].data)
    }

    /** Following the links of a node is allowed while the packet around it is allocated. */
    method Next(heap: Heap, n: ListHead<Packet?>) returns (next: ListHead?<Packet?>)
      requires n == queue || (n.container != null && heap.Live(n.container))
      ensures next == n.next
    {
      next := n.next;
    }

    /** The body of the loop of packet_queue_flush, at the first entry. */
    method FreeEntry(heap: Heap, entry: ListHead<Packet?>)
      requires Linked() && Owned(heap) && |ring| >= 2 && entry == ring[1]
      modifies this`contents, this`ring, ring`next, ring`prev, heap`freed
      ensures Linked() && Owned(heap) && contents == old(contents[1..]) && ring == Remove(old(ring), 1)
      ensures heap.freed == old(heap.freed) + BlocksOf(old(contents[0]))
      ensures var first := old(contents[0]);
              heap.freed == old(heap.freed) + if first.data != null then [first.data, first] else [first]
      ensures old(heap.Once()) ==> heap.Once()
    {
      ghost var first := contents[0];
      assert forall i :: 1 <= i < |contents| ==> contents[i].list == ring[i + 1] != first.list;
      ghost var item := UnlinkFirst(entry);
      FreePacket(heap, entry.container, true);
    }

    /** `pos` is where list_for_each_safe stands when it starts a round, and `n` its look-ahead. */
    ghost predicate AtFront(pos: ListHead?<Packet?>, n: ListHead?<Packet?>)
      requires Linked()
      reads this, ring
    {
      && pos == (if contents == [] then queue else ring[1])
      && n == pos.next
      && (contents != [] ==> pos.container == contents[0])
    }

    lemma FrontIsNext()
      requires Linked()
      ensures AtFront(queue.next, queue.next.next)
    {
      LinksAreInverse(ring, 0);
    }

    /** One round of the loop: delete the entry at `pos`, then `pos = n, n = pos->next`. */
    method FlushRound(heap: Heap, pos: ListHead<Packet?>, n: ListHead<Packet?>, ghost nodes: set<ListHead<Packet?>>)
      returns (pos': ListHead<Packet?>, n': ListHead?<Packet?>)
      requires Linked() && Owned(heap) && contents != [] && AtFront(pos, n)
      requires forall x :: x in ring ==> x in nodes
      modifies this`contents, this`ring, nodes`next, nodes`prev, heap`freed
      ensures Linked() && Owned(heap) && AtFront(pos', n')
      ensures forall x :: x in ring ==> x in nodes
      ensures contents == old(contents[1..])
      ensures heap.freed == old(heap.freed) + BlocksOf(old(contents[0]))
      ensures old(heap.Once()) ==> heap.Once()
    {
      LinksAreInverse(ring, 1);
      FreeEntry(heap, pos);
      FrontIsNext();
      LinksAreInverse(ring, 0);
      pos' := n;
      n' := Next(heap, pos');
    }

    /** packet_queue_flush: the loop of list_for_each_safe, deleting each entry it visits. */
    method Flush(heap: Heap)
      requires Valid() && Owned(heap)
      modifies this`queueCount, this`contents, this`ring, ring`next, ring`prev, heap`freed
      ensures Valid() && contents == []
      ensures heap.freed == old(heap.freed) + BlocksOfAll(old(contents))
      ensures old(heap.freed) <= heap.freed && AreFreed(heap.freed[|old(heap.freed)|..], old(contents))
      ensures old(heap.Once()) ==> heap.Once()
    {
      ghost var nodes := set x | x in ring;
      FrontIsNext();
      LinksAreInverse(ring, 0);
      var pos: ListHead<Packet?> := queue.next;
      var n := Next(heap, pos);
      while pos != queue
        invariant Linked() && Owned(heap) && AtFront(pos, n)
        invariant forall x :: x in ring ==> x in nodes
        invariant old(heap.Once()) ==> heap.Once()
        invariant heap.freed + BlocksOfAll(contents) == old(heap.freed) + BlocksOfAll(old(contents))
        decreases |contents|
      {
        FreeFirstThenRest(heap.freed, contents);
        pos, n := FlushRound(heap, pos, n, nodes);
      }
      LinksAreInverse(ring, 0);
      BlocksAreFreed(old(contents));
      queueCount := 0;
    }
  }
}
