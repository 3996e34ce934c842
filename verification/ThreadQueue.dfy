/** The queue itself (queue.c): a singly linked list of messages and a pool of recycled nodes, both
    updated in place. Nodes live in an explicit memory, so that `malloc` and `free` mean something:
    only an allocated address can be read, written or freed. Every public method is one critical
    section; `model` is its meaning in `QueueSpec`. */
module ThreadQueues {
  import opened Basics
  import opened QueueSpec

  /** struct msglist */
  datatype Node = Node(data: Ptr, msgtype: int, next: Ptr)

  /** The allocated nodes. */
  type Memory = map<Ptr, Node>

  datatype Status = Ok | TimedOut

  function Content(node: Node): Message {
    Message(node.data, node.msgtype)
  }

  /** From `p` the nodes at the addresses `at` spell `ms`, end at `last` and then at NULL, and no
      address is left over. Each step gives up the address it leaves, so the chain cannot come back. */
  ghost predicate Chain(mem: Memory, at: set<Ptr>, p: Ptr, last: Ptr, ms: seq<Message>)
    decreases |ms|
  {
    if ms == [] then p == NULL && last == NULL && at == {}
    else
      && p != NULL && p in at && p in mem && Content(mem[p]) == ms[0]
      && if |ms| == 1 then last == p && mem[p].next == NULL && at == {p}
         else Chain(mem, at - {p}, mem[p].next, last, ms[1..])
  }

  lemma {:induction false} ChainSize(mem: Memory, at: set<Ptr>, p: Ptr, last: Ptr, ms: seq<Message>)
    requires Chain(mem, at, p, last, ms)
    ensures |at| == |ms| && NULL !in at && at <= mem.Keys && (ms != [] ==> p in at && last in at)
    decreases |ms|
  {
    if |ms| > 1 {
      ChainSize(mem, at - {p}, mem[p].next, last, ms[1..]);
      assert at == (at - {p}) + {p};
    }
  }

  /** Writes and frees elsewhere leave a chain alone. */
  lemma {:induction false} ChainFrame(mem: Memory, mem': Memory, at: set<Ptr>, p: Ptr, last: Ptr, ms: seq<Message>)
    requires Chain(mem, at, p, last, ms)
    requires forall q :: q in at && q in mem ==> q in mem' && mem'[q] == mem[q]
    ensures Chain(mem', at, p, last, ms)
    decreases |ms|
  {
    if |ms| > 1 {
      ChainFrame(mem, mem', at - {p}, mem[p].next, last, ms[1..]);
    }
  }

  /** What is left when the first node is taken off. */
  lemma ChainTail(mem: Memory, at: set<Ptr>, p: Ptr, last: Ptr, ms: seq<Message>)
    requires Chain(mem, at, p, last, ms) && ms != []
    ensures Chain(mem, at - {p}, mem[p].next, if |ms| == 1 then NULL else last, ms[1..])
    ensures mem[p].next == NULL <==> |ms| == 1
  {
    if |ms| == 1 {
      assert at - {p} == {};
    }
  }

  lemma ChainPush(mem: Memory, at: set<Ptr>, p: Ptr, last: Ptr, ms: seq<Message>, q: Ptr, node: Node)
    requires Chain(mem, at, p, last, ms) && q !in at && q != NULL && node.next == p
    ensures Chain(mem[q := node], at + {q}, q, if ms == [] then q else last, [Content(node)] + ms)
  {
    ChainFrame(mem, mem[q := node], at, p, last, ms);
    assert at + {q} - {q} == at;
    assert ([Content(node)] + ms)[1..] == ms;
  }

  /** Linking a new node behind the last one appends its message. */
  lemma {:induction false} ChainAppend(mem: Memory, at: set<Ptr>, p: Ptr, last: Ptr, ms: seq<Message>, q: Ptr)
    requires Chain(mem, at, p, last, ms) && ms != [] && q !in at && q in mem && last in mem
    requires q != NULL && mem[q].next == NULL
    ensures Chain(mem[last := mem[last].(next := q)], at + {q}, p, q, ms + [Content(mem[q])])
    decreases |ms|
  {
    var m := Content(mem[q]);
    assert (ms + [m])[1..] == ms[1..] + [m];
    if |ms| == 1 {
      assert at + {q} - {p} == {q};
      assert ms[1..] + [m] == [m];
    } else {
      ChainSize(mem, at - {p}, mem[p].next, last, ms[1..]);
      ChainAppend(mem, at - {p}, mem[p].next, last, ms[1..], q);
      assert at + {q} - {p} == at - {p} + {q};
    }
  }

  /** The pointers among these messages that `free` acts on. */
  function Freeable(ms: seq<Message>): seq<Ptr> {
    if ms == [] then []
    else (if ms[0].data == NULL then [] else [ms[0].data]) + Freeable(ms[1..])
  }

  lemma {:induction false} FreeableAppend(ms: seq<Message>, m: Message)
    ensures Freeable(ms + [m]) == Freeable(ms) + if m.data == NULL then [] else [m.data]
  {
    if ms != [] {
      FreeableAppend(ms[1..], m);
      assert (ms + [m])[1..] == ms[1..] + [m];
    }
  }

  lemma {:induction false} FreeableIn(ms: seq<Message>, d: Ptr)
    requires d in Freeable(ms)
    ensures d != NULL && exists i :: 0 <= i < |ms| && ms[i].data == d
  {
    if d in Freeable(ms[1..]) {
      FreeableIn(ms[1..], d);
      var i :| 0 <= i < |ms[1..]| && ms[1..][i].data == d;
      assert ms[i + 1].data == d;
    }
  }

  lemma {:induction false} NothingFreeable(ms: seq<Message>)
    requires forall i :: 0 <= i < |ms| ==> ms[i].data == NULL
    ensures Freeable(ms) == []
  {
    if ms != [] {
      NothingFreeable(ms[1..]);
    }
  }

  /** When no caller hands in one pointer twice, NULL aside, clean-up frees nothing that a get already
      returned. */
  lemma FreedWasNeverHandedOut(q: Queue, d: Ptr)
    requires Sound(q)
    requires forall i, j :: 0 <= i < j < |q.added| ==> q.added[i].data == q.added[j].data ==> q.added[i].data == NULL
    requires d in Freeable(q.items)
    ensures forall k :: 0 <= k < |q.delivered| ==> q.delivered[k].data != d
  {
    FreeableIn(q.items, d);
    var i :| 0 <= i < |q.items| && q.items[i].data == d;
    assert q.added[|q.delivered| + i] == q.items[i];
    forall k | 0 <= k < |q.delivered| ensures q.delivered[k].data != d {
      assert q.added[k] == q.delivered[k];
    }
  }

  /** Every allocated node is in the list, in the pool, or held by the running operation. */
  ghost predicate Partition(mem: Memory, listAt: set<Ptr>, poolAt: set<Ptr>, held: set<Ptr>) {
    && (forall q :: q in mem <==> q in listAt || q in poolAt || q in held)
    && (forall q :: q in listAt ==> q !in poolAt && q !in held)
    && (forall q :: q in poolAt ==> q !in held)
  }

  class ThreadQueue {
    var length: int
    var first: Ptr
    var last: Ptr
    var msgpool: Ptr
    var msgpoolLength: int
    var mem: Memory

    ghost var listAt: set<Ptr>      // the nodes reached from first
    ghost var poolAt: set<Ptr>      // the nodes reached from msgpool
    ghost var poolLast: Ptr
    ghost var poolMs: seq<Message>  // what the pool nodes hold
    ghost var model: Queue

    /** A released node holds no data, so a later clean-up cannot free what a get handed out. */
    ghost predicate PoolOk()
      reads this
    {
      && Chain(mem, poolAt, msgpool, poolLast, poolMs)
      && (forall i :: 0 <= i < |poolMs| ==> poolMs[i] == Message(NULL, 0))
      && msgpoolLength == |poolMs|
    }

    ghost predicate Valid()
      reads this
    {
      && Chain(mem, listAt, first, last, model.items) && length == |model.items|
      && PoolOk() && msgpoolLength == model.pool
      && Partition(mem, listAt, poolAt, {})
    }

    /** The allocated nodes are those of the list and of the pool, and their number is what the
        allocator calls of the model leave. */
    lemma NoLeak()
      requires Valid() && Sound(model)
      ensures |mem| == length + msgpoolLength == model.mallocs - model.frees
    {
      ChainSize(mem, listAt, first, last, model.items);
      ChainSize(mem, poolAt, msgpool, poolLast, poolMs);
      assert mem.Keys == listAt + poolAt;
    }

    /** thread_queue_init */
    constructor ()
      ensures Valid() && model == EMPTY
    {
      length, first, last, msgpool, msgpoolLength, mem := 0, NULL, NULL, NULL, 0, map[];
      listAt, poolAt, poolLast, poolMs, model := {}, {}, NULL, [], EMPTY;
    }

    /** malloc: which unallocated address it returns is up to the allocator. */
    method Malloc(unused: Ptr) returns (p: Ptr)
      requires unused != NULL && unused !in mem
      modifies this`mem
      ensures p == unused && p in mem && mem == old(mem)[p := mem[p]]
    {
      p := unused;
      mem := mem[p := Node(NULL, 0, NULL)];
    }

    /** free: the address must be allocated, so no node is freed twice. */
    method Free(p: Ptr)
      requires p in mem
      modifies this`mem
      ensures mem == old(mem) - {p}
    {
      mem := mem - {p};
    }

    /** Assigns the three fields of a node one after the other. */
    method Fill(p: Ptr, node: Node)
      requires p in mem
      modifies this`mem
      ensures mem == old(mem)[p := node]
    {
      mem := mem[p := mem[p].(data := node.data)];
      mem := mem[p := mem[p].(msgtype := node.msgtype)];
      mem := mem[p := mem[p].(next := node.next)];
    }

    /** get_msglist */
    method GetMsglist(unused: Ptr) returns (tmp: Ptr)
      requires PoolOk() && Partition(mem, listAt, poolAt, {}) && unused != NULL && unused !in mem
      modifies this`msgpool, this`msgpoolLength, this`poolAt, this`poolLast, this`poolMs, this`mem
      ensures PoolOk() && tmp != NULL && Partition(mem, listAt, poolAt, {tmp})
      ensures forall q :: q in listAt && q in old(mem) ==> q in mem && mem[q] == old(mem)[q]
      ensures msgpoolLength == if old(msgpoolLength) == 0 then 0 else old(msgpoolLength) - 1
    {
      ChainSize(mem, poolAt, msgpool, poolLast, poolMs);
      if msgpool != NULL {
        tmp := msgpool;
        ChainTail(mem, poolAt, msgpool, poolLast, poolMs);
        msgpool := mem[tmp].next;
        msgpoolLength := msgpoolLength - 1;
        poolAt, poolLast, poolMs := poolAt - {tmp}, if |poolMs| == 1 then NULL else poolLast, poolMs[1..];
      } else {
        tmp := Malloc(unused);
        ChainFrame(old(mem), mem, poolAt, msgpool, poolLast, poolMs);
      }
    }

    /** The first half of release_msglist: keep the node for reuse, or free it. */
    method PoolOrFree(node: Ptr)
      requires PoolOk() && Partition(mem, listAt, poolAt, {node}) && node != NULL && length >= 0
      modifies this`msgpool, this`msgpoolLength, this`poolAt, this`poolLast, this`poolMs, this`mem
      ensures PoolOk() && Partition(mem, listAt, poolAt, {})
      ensures forall q :: q in listAt && q in old(mem) ==> q in mem && mem[q] == old(mem)[q]
      ensures msgpoolLength == Pooled(old(msgpoolLength), length)
    {
      ChainSize(mem, poolAt, msgpool, poolLast, poolMs);
      if msgpoolLength > length / 8 + MSGPOOL_SIZE {
        Free(node);
        ChainFrame(old(mem), mem, poolAt, msgpool, poolLast, poolMs);
      } else {
        var blank := Node(NULL, 0, msgpool);
        ChainPush(mem, poolAt, msgpool, poolLast, poolMs, node, blank);
        Fill(node, blank);
        poolAt, poolLast, poolMs := poolAt + {node}, if poolMs == [] then node else poolLast, [Content(blank)] + poolMs;
        msgpool := node;
        msgpoolLength := msgpoolLength + 1;
      }
    }

    /** The second half of release_msglist: drop one pool node when the pool is too long. */
    method TrimPool()
      requires PoolOk() && Partition(mem, listAt, poolAt, {}) && length >= 0
      modifies this`msgpool, this`msgpoolLength, this`poolAt, this`poolLast, this`poolMs, this`mem
      ensures PoolOk() && Partition(mem, listAt, poolAt, {})
      ensures forall q :: q in listAt && q in old(mem) ==> q in mem && mem[q] == old(mem)[q]
      ensures msgpoolLength ==
        if old(msgpoolLength) > length / 4 + MSGPOOL_SIZE * 10 then old(msgpoolLength) - 1 else old(msgpoolLength)
    {
      if msgpoolLength > length / 4 + MSGPOOL_SIZE * 10 {
        ChainSize(mem, poolAt, msgpool, poolLast, poolMs);
        ChainTail(mem, poolAt, msgpool, poolLast, poolMs);
        var tmp := msgpool;
        msgpool := mem[tmp].next;
        Free(tmp);
        msgpoolLength := msgpoolLength - 1;
        poolAt, poolLast, poolMs := poolAt - {tmp}, if |poolMs| == 1 then NULL else poolLast, poolMs[1..];
        ChainFrame(old(mem), mem, poolAt, msgpool, poolLast, poolMs);
      }
    }

    /** release_msglist */
    method ReleaseMsglist(node: Ptr)
      requires PoolOk() && Partition(mem, listAt, poolAt, {node}) && node != NULL && length >= 0
      modifies this`msgpool, this`msgpoolLength, this`poolAt, this`poolLast, this`poolMs, this`mem
      ensures PoolOk() && Partition(mem, listAt, poolAt, {})
      ensures forall q :: q in listAt && q in old(mem) ==> q in mem && mem[q] == old(mem)[q]
      ensures msgpoolLength == PoolAfterRelease(old(msgpoolLength), length)
    {
      PoolOrFree(node);
      TrimPool();
    }

    /** The first half of thread_queue_add: a node that holds the message but is not linked. */
    method NewMessage(node: Node, unused: Ptr) returns (newmsg: Ptr)
      requires Chain(mem, listAt, first, last, model.items) && PoolOk() && Partition(mem, listAt, poolAt, {})
      requires unused != NULL && unused !in mem
      modifies this`msgpool, this`msgpoolLength, this`poolAt, this`poolLast, this`poolMs, this`mem
      ensures Chain(mem, listAt, first, last, model.items) && PoolOk() && Partition(mem, listAt, poolAt, {newmsg})
      ensures newmsg != NULL && mem[newmsg] == node
      ensures msgpoolLength == if old(msgpoolLength) == 0 then 0 else old(msgpoolLength) - 1
    {
      ChainSize(mem, listAt, first, last, model.items);
      newmsg := GetMsglist(unused);
      ghost var before := mem;
      Fill(newmsg, node);
      ChainFrame(old(mem), mem, listAt, first, last, model.items);
      ChainFrame(before, mem, poolAt, msgpool, poolLast, poolMs);
    }

    /** The linking step of thread_queue_add (queue.c:85-92). */
    method LinkTail(newmsg: Ptr, ghost items: seq<Message>)
      requires Chain(mem, listAt, first, last, items) && PoolOk() && Partition(mem, listAt, poolAt, {newmsg})
      requires newmsg != NULL && mem[newmsg].next == NULL
      modifies this`first, this`last, this`listAt, this`mem
      ensures Chain(mem, listAt, first, last, items + [Content(old(mem)[newmsg])])
      ensures PoolOk() && Partition(mem, listAt, poolAt, {})
    {
      ChainSize(mem, listAt, first, last, items);
      if last == NULL {
        last := newmsg;
        first := newmsg;
        assert items + [Content(mem[newmsg])] == [Content(mem[newmsg])];
      } else {
        ChainAppend(mem, listAt, first, last, items, newmsg);
        mem := mem[last := mem[last].(next := newmsg)];
        last := newmsg;
        ChainFrame(old(mem), mem, poolAt, msgpool, poolLast, poolMs);
      }
      listAt := listAt + {newmsg};
    }

    /** thread_queue_add; `broadcast` says whether the sleeping consumers were woken. The memory is
        never exhausted here: `unused` is the address malloc returns if it is called. */
    method AddMessage(data: Ptr, msgtype: int, unused: Ptr) returns (broadcast: bool)
      requires Valid() && unused != NULL && unused !in mem
      modifies this
      ensures Valid() && model == Add(old(model), Message(data, msgtype))
      ensures broadcast <==> old(model).items == []
    {
      var newmsg := NewMessage(Node(data, msgtype, NULL), unused);
      LinkTail(newmsg, model.items);
      broadcast := length == 0;
      length := length + 1;
      model := Add(model, Message(data, msgtype));
    }

    /** The unlinking step of thread_queue_get (queue.c:140-147). */
    method UnlinkHead(ghost items: seq<Message>) returns (firstrec: Ptr)
      requires Chain(mem, listAt, first, last, items) && items != [] && length == |items|
      requires Partition(mem, listAt, poolAt, {})
      modifies this`first, this`last, this`length, this`listAt
      ensures Chain(mem, listAt, first, last, items[1..]) && length == |items| - 1
      ensures firstrec != NULL && firstrec in mem && Content(mem[firstrec]) == items[0]
      ensures Partition(mem, listAt, poolAt, {firstrec})
    {
      ChainSize(mem, listAt, first, last, items);
      ChainTail(mem, listAt, first, last, items);
      firstrec := first;
      first := mem[first].next;
      length := length - 1;
      if first == NULL {
        last := NULL;
        length := 0;
      }
      listAt := listAt - {firstrec};
    }

    /** thread_queue_get once its wait loop is over: either a message is there or the wait timed
        out. A timed-out get returns without looking at the queue. */
    method GetMessage(timedOut: bool) returns (status: Status, msg: Message, qlength: int)
      requires Valid() && (model.items != [] || timedOut)
      modifies this
      ensures Valid()
      ensures status == if timedOut then TimedOut else Ok
      ensures timedOut ==> model == old(model) && mem == old(mem)
      ensures !timedOut ==> model == Take(old(model)) && msg == old(model).items[0] && qlength == |model.items|
    {
      if timedOut {
        return TimedOut, Message(NULL, 0), 0;
      }
      status := Ok;
      ghost var rest := model.items[1..];
      var firstrec := UnlinkHead(model.items);
      msg := Message(mem[firstrec].data, mem[firstrec].msgtype);
      qlength := length;
      ChainSize(mem, listAt, first, last, rest);
      ReleaseMsglist(firstrec);
      ChainFrame(old(mem), mem, listAt, first, last, rest);
      model := Take(model);
    }

    /** thread_queue_length */
    method Length() returns (counter: int)
      requires Valid()
      ensures counter == |model.items|
    {
      counter := length;
    }

    /** The inner loop of thread_queue_cleanup: frees every node of one chain. */
    method FreeChain(head: Ptr, freedata: bool, ghost at: set<Ptr>, ghost end: Ptr, ghost ms: seq<Message>)
      returns (freed: seq<Ptr>)
      requires Chain(mem, at, head, end, ms)
      modifies this`mem
      ensures forall q :: q in mem <==> q in old(mem) && q !in at
      ensures forall q :: q in mem ==> mem[q] == old(mem)[q]
      ensures freed == if freedata then Freeable(ms) else []
    {
      var rec := head;
      freed := [];
      ghost var k, left, lastLeft := 0, at, end;
      ChainSize(mem, at, head, end, ms);
      while rec != NULL
        invariant 0 <= k <= |ms| && left <= at && Chain(mem, left, rec, lastLeft, ms[k..])
        invariant forall q :: q in mem <==> q in old(mem) && (q in at ==> q in left)
        invariant forall q :: q in mem ==> mem[q] == old(mem)[q]
        invariant freed == if freedata then Freeable(ms[..k]) else []
        decreases |ms| - k
      {
        ChainSize(mem, left, rec, lastLeft, ms[k..]);
        ChainTail(mem, left, rec, lastLeft, ms[k..]);
        assert ms[..k + 1] == ms[..k] + [ms[k]] && ms[k..][1..] == ms[k + 1..];
        FreeableAppend(ms[..k], ms[k]);
        var next := mem[rec].next;
        if freedata && mem[rec].data != NULL {
          freed := freed + [mem[rec].data];
        }
        ghost var before := mem;
        Free(rec);
        left, lastLeft, k := left - {rec}, if |ms[k..]| == 1 then NULL else lastLeft, k + 1;
        ChainFrame(before, mem, left, next, lastLeft, ms[k..]);
        rec := next;
      }
      assert ms[..k] == ms;
    }

    /** thread_queue_cleanup: every node is freed and none twice, and with `freedata` the data of
        each pending message once and nothing else. */
    method Cleanup(freedata: bool) returns (freed: seq<Ptr>)
      requires Valid()
      modifies this`mem
      ensures mem == map[]
      ensures freed == if freedata then Freeable(old(model).items) else []
    {
      freed := FreeChain(first, freedata, listAt, last, model.items);
      ChainFrame(old(mem), mem, poolAt, msgpool, poolLast, poolMs);
      var more := FreeChain(msgpool, freedata, poolAt, poolLast, poolMs);
      NothingFreeable(poolMs);
      freed := freed + more;
    }
  }
}
