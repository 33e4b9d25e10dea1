/** Heap-linked message queues and the table that hands out their ids. src/msgqueue.c. */
module MsgQueues {
  import opened Times

  /** A msg_t. */
  class Node<T> {
    const payload: T
    const stamp: Timespec
    var next: Node?<T>

    constructor (payload: T, stamp: Timespec)
      ensures this.payload == payload && this.stamp == stamp && next == null
    {
      this.payload := payload;
      this.stamp := stamp;
      next := null;
    }
  }

  /** A msgqueue_t. The ghost sequence lists its nodes from head to tail. */
  class MsgQueue<T> {
    var head: Node?<T>
    var tail: Node?<T>
    var msgcount: int
    var active: bool
    var delaypair: MsgQueue?<T>
    const id: int
    ghost var nodes: seq<Node<T>>

    ghost predicate Valid()
      reads this, nodes
    {
      && msgcount == |nodes|
      && (nodes == [] ==> head == null && tail == null)
      && (nodes != [] ==> head == nodes[0] && tail == nodes[|nodes| - 1] && nodes[|nodes| - 1].next == null)
      && (forall i :: 0 <= i < |nodes| - 1 ==> nodes[i].next == nodes[i + 1])
      && (forall i, j :: 0 <= i < j < |nodes| ==> nodes[i] != nodes[j])
    }

    /** The payloads from head to tail. */
    ghost function Contents(): (s: seq<T>)
      reads this
    {
      seq(|nodes|, i requires 0 <= i < |nodes| reads this => nodes[i].payload)
    }

    /** create_queue, given its id and marked active. */
    constructor (id: int)
      ensures Valid() && nodes == [] && active && this.id == id && delaypair == null
    {
      head, tail, msgcount := null, null, 0;
      active := true;
      delaypair := null;
      this.id := id;
      nodes := [];
    }

    /** put_msg_raw. */
    method PutRaw(msg: Node<T>) returns (ret: int)
      requires Valid() && msg.next == null && msg !in nodes
      modifies this`head, this`tail, this`msgcount, this`nodes, nodes
      ensures Valid()
      ensures old(active) ==> ret == 0 && nodes == old(nodes) + [msg]
      ensures !old(active) ==> ret == -1 && nodes == old(nodes)
      ensures msg.next == null
    {
      if !active {
        return -1;
      }
      if tail != null {
        tail.next := msg;
      } else {
        head := msg;
      }
      tail := msg;
      msgcount := msgcount + 1;
      nodes := nodes + [msg];
      return 0;
    }

    /**
     get_msg_raw. A negative timeout does not wait; zero waits until there is a message; a
     positive one may end with timedOut, in which case nothing is taken.
     */
    method GetRaw(timeout: int, timedOut: bool) returns (msg: Node?<T>)
      requires Valid()
      requires active && timeout == 0 ==> head != null
      requires active && timeout > 0 && !timedOut ==> head != null
      modifies this`head, this`tail, this`msgcount, this`nodes, nodes
      ensures Valid()
      ensures msg != null <==> old(active && nodes != [] && !(timeout > 0 && timedOut))
      ensures msg == null ==> nodes == old(nodes) && Contents() == old(Contents())
      ensures msg != null ==> msg == old(nodes)[0] && nodes == old(nodes)[1..] && msg.next == null
      ensures msg != null ==> [msg.payload] + Contents() == old(Contents())
    {
      if !active || (timeout > 0 && timedOut) || head == null {
        return null;
      }
      msg := head;
      head := msg.next;
      msg.next := null;
      msgcount := msgcount - 1;
      nodes := nodes[1..];
      if head == null {
        tail := null;
      }
      assert old(Contents()) == [msg.payload] + Contents();
    }

    /** peek_msg_timestamp, once the wait for a message is over. */
    method PeekStamp() returns (stamp: Timespec)
      requires Valid() && head != null
      ensures nodes != [] && stamp == nodes[0].stamp
    {
      stamp := head.stamp;
    }
  }

  /** flags[i] says whether queue i is active; free lists exactly the inactive ones, once each. */
  ghost predicate FreeList(free: seq<nat>, flags: seq<bool>) {
    && (forall k :: 0 <= k < |free| ==> free[k] < |flags| && !flags[free[k]])
    && (forall j, k :: 0 <= j < k < |free| ==> free[j] != free[k])
    && (forall i :: 0 <= i < |flags| && !flags[i] ==> i in free)
  }

  lemma ReuseKeepsFreeList(free: seq<nat>, flags: seq<bool>)
    requires FreeList(free, flags) && free != []
    ensures FreeList(free[1..], flags[free[0] := true])
  {
    var flags' := flags[free[0] := true];
    forall i | 0 <= i < |flags'| && !flags'[i]
      ensures i in free[1..]
    {
      var k :| 0 <= k < |free| && free[k] == i;
      assert free[1..][k - 1] == i;
    }
  }

  lemma ReleaseKeepsFreeList(free: seq<nat>, flags: seq<bool>, id: nat)
    requires FreeList(free, flags) && id < |flags| && flags[id]
    ensures FreeList(free + [id], flags[id := false])
  {
  }

  lemma SecondReleaseBreaks(free: seq<nat>, flags: seq<bool>, id: nat)
    requires FreeList(free, flags) && id < |flags| && !flags[id]
    ensures !FreeList(free + [id], flags[id := false])
  {
    var k :| 0 <= k < |free| && free[k] == id;
    assert (free + [id])[k] == (free + [id])[|free|];
  }

  /** The global table of queues and the metaqueue of the free ones, which are named by their ids. */
  class Registry<T> {
    var queues: array<MsgQueue?<T>>
    var queuespace: nat
    var numqueues: nat
    const metaqueue: MsgQueue<nat>

    ghost predicate ValidTable()
      reads this, queues
    {
      && queuespace > 0 && queues.Length == queuespace && numqueues <= queuespace
      && (forall i :: 0 <= i < numqueues ==> queues[i] != null && queues[i].id == i)
      && (forall i :: 0 <= i < numqueues ==> queues[i] as object? != metaqueue)
    }

    ghost function Flags(): (flags: seq<bool>)
      requires ValidTable()
      reads this, queues, queues[..]
      ensures |flags| == numqueues && forall i :: 0 <= i < numqueues ==> flags[i] == queues[i].active
    {
      seq(numqueues, i requires 0 <= i < numqueues && ValidTable() reads this, queues, queues[..] =>
        queues[i].active)
    }

    ghost function Free(): seq<nat>
      reads this, metaqueue
    {
      metaqueue.Contents()
    }

    ghost predicate Valid()
      reads this, queues, queues[..], metaqueue, metaqueue.nodes
    {
      ValidTable() && metaqueue.Valid() && metaqueue.active && FreeList(Free(), Flags())
    }

    constructor ()
      ensures Valid() && fresh(queues) && fresh(metaqueue)
      ensures Flags() == [] && Free() == []
    {
      queues := new MsgQueue?<T>[1](_ => null);
      queuespace := 1;
      numqueues := 0;
      metaqueue := new MsgQueue(-1);
    }

    /** queue_realloc. */
    method Grow()
      requires ValidTable()
      modifies this`queues, this`queuespace
      ensures ValidTable() && queuespace == 2 * old(queuespace) && fresh(queues)
      ensures queues[..numqueues] == old(queues[..numqueues]) && Flags() == old(Flags())
    {
      var larger := new MsgQueue?<T>[2 * queuespace](_ => null);
      var i := 0;
      while i < queuespace
        invariant 0 <= i <= queuespace
        invariant forall j :: 0 <= j < i ==> larger[j] == queues[j]
        modifies larger
      {
        larger[i] := queues[i];
        i := i + 1;
      }
      queues := larger;
      queuespace := 2 * queuespace;
    }

    /** try_available: the first free queue, made active again; -1 when there is none. */
    method TryAvailable() returns (i: int)
      requires Valid()
      modifies queues[..], metaqueue, metaqueue.nodes
      ensures Valid()
      ensures old(Free()) == [] ==> i == -1 && Free() == [] && Flags() == old(Flags())
      ensures old(Free()) != [] ==> i == old(Free())[0]
      ensures old(Free()) != [] ==> Free() == old(Free())[1..] && Flags() == old(Flags())[i := true]
    {
      ghost var free, flags := Free(), Flags();
      var msg := metaqueue.GetRaw(-1, false);
      assert Flags() == flags;
      if msg == null {
        return -1;
      }
      i := msg.payload;
      assert free[0] == i && Free() == free[1..];
      ReuseKeepsFreeList(free, flags);
      queues[i].active := true;
      assert Flags() == flags[i := true];
    }

    /** Entering a new queue into the table. */
    method Install(mq: MsgQueue<T>)
      requires ValidTable() && numqueues < queuespace
      requires mq.id == numqueues && mq.active && mq as object != metaqueue
      modifies this`numqueues, queues
      ensures ValidTable() && Flags() == old(Flags()) + [true]
    {
      queues[numqueues] := mq;
      numqueues := numqueues + 1;
    }

    /** The part of get_queue that creates a queue, doubling the table when it is full. */
    method AddQueue() returns (i: nat)
      requires Valid()
      modifies this`queues, this`queuespace, this`numqueues, queues
      ensures Valid()
      ensures i == old(numqueues) && Flags() == old(Flags()) + [true] && Free() == old(Free())
    {
      i := numqueues;
      var mq := new MsgQueue<T>(i);
      if numqueues + 1 > queuespace {
        Grow();
      }
      Install(mq);
    }

    /** get_queue: an id that is not in use, from the metaqueue if there is one there. */
    method GetQueue() returns (i: nat)
      requires Valid()
      modifies this`queues, this`queuespace, this`numqueues, queues, queues[..], metaqueue, metaqueue.nodes
      ensures Valid() && i < |Flags()| && Flags()[i]
      ensures i < |old(Flags())| ==> !old(Flags())[i] && Flags() == old(Flags())[i := true]
      ensures i >= |old(Flags())| ==> Flags() == old(Flags()) + [true] && old(Free()) == []
    {
      var free := TryAvailable();
      if free != -1 {
        i := free;
      } else {
        i := AddQueue();
      }
    }

    /** release_queue. The table stays sound exactly when the queue had not been released before. */
    method ReleaseQueue(id: nat) returns (ret: int)
      requires Valid() && id < numqueues && queues[id].Valid()
      modifies queues[id], metaqueue, metaqueue.nodes
      ensures ValidTable() && metaqueue.Valid()
      ensures Valid() <==> ret == -1 || old(queues[id].active)
      ensures ret == -1 <==> old(queues[id].delaypair != null || queues[id].nodes != [])
      ensures ret == -1 ==> Flags() == old(Flags()) && Free() == old(Free())
      ensures ret != -1 ==> ret == 0 && Flags() == old(Flags())[id := false] && Free() == old(Free()) + [id]
    {
      ghost var free, flags := Free(), Flags();
      var mq := queues[id];
      if mq.delaypair != null {
        return -1;
      }
      if mq.head != null {
        return -1;
      }
      mq.active := false;
      var msg := new Node<nat>(mq.id, Timespec(0, 0));
      ret := metaqueue.PutRaw(msg);
      if flags[id] {
        ReleaseKeepsFreeList(free, flags, id);
      } else {
        SecondReleaseBreaks(free, flags, id);
      }
      assert Free() == free + [id];
      assert Flags() == flags[id := false];
    }
  }
}
