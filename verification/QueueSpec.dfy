/** The meaning of one waitable queue (queue.c) as a value: what one whole critical section of
    `thread_queue_add` or `thread_queue_get` does to the messages and to the node accounting. */
module QueueSpec {
  import opened Basics

  const MSGPOOL_SIZE: nat := 256

  datatype Message = Message(data: Ptr, msgtype: int)

  /** `pool` counts the recycled nodes, `mallocs` and `frees` the calls to the allocator, `peak` is
      the largest length seen; `added` and `delivered` log every message in lock order. */
  datatype Queue = Queue(
    items: seq<Message>,
    pool: nat,
    mallocs: nat,
    frees: nat,
    peak: nat,
    added: seq<Message>,
    delivered: seq<Message>)

  const EMPTY: Queue := Queue([], 0, 0, 0, 0, [], [])

  function Add(q: Queue, m: Message): Queue {
    q.(items := q.items + [m],
       pool := if q.pool > 0 then q.pool - 1 else 0,
       mallocs := if q.pool > 0 then q.mallocs else q.mallocs + 1,
       peak := if q.peak < |q.items| + 1 then |q.items| + 1 else q.peak,
       added := q.added + [m])
  }

  /** Is the released node kept for reuse when `length` messages remain? */
  predicate Pools(pool: nat, length: nat) {
    pool <= length / 8 + MSGPOOL_SIZE
  }

  /** Pool size after the released node was kept or freed, before trimming. */
  function Pooled(pool: nat, length: nat): nat {
    if Pools(pool, length) then pool + 1 else pool
  }

  /** Does the release also drop one node of the pool? */
  predicate Trims(pool: nat, length: nat) {
    Pooled(pool, length) > length / 4 + MSGPOOL_SIZE * 10
  }

  function PoolAfterRelease(pool: nat, length: nat): nat {
    if Trims(pool, length) then Pooled(pool, length) - 1 else Pooled(pool, length)
  }

  function FreesOfRelease(pool: nat, length: nat): nat {
    (if Pools(pool, length) then 0 else 1) + (if Trims(pool, length) then 1 else 0)
  }

  function Take(q: Queue): Queue
    requires q.items != []
  {
    var length := |q.items| - 1;
    q.(items := q.items[1..],
       pool := PoolAfterRelease(q.pool, length),
       frees := q.frees + FreesOfRelease(q.pool, length),
       delivered := q.delivered + [q.items[0]])
  }

  /** One completed call. A get whose wait timed out is a call too; a get on an empty queue that
      has not timed out has not completed and leaves the queue alone. */
  datatype Call = CallAdd(m: Message) | CallGet | CallGetTimedOut

  function Step(q: Queue, call: Call): Queue {
    match call
    case CallAdd(m) => Add(q, m)
    case CallGet => if q.items == [] then q else Take(q)
    case CallGetTimedOut => q
  }

  function Run(q: Queue, calls: seq<Call>): Queue
    decreases |calls|
  {
    if calls == [] then q else Run(Step(q, calls[0]), calls[1..])
  }

  /** What every completed call keeps. */
  ghost predicate Sound(q: Queue) {
    && q.pool <= |q.items| / 4 + MSGPOOL_SIZE * 10
    && q.pool <= q.peak / 8 + MSGPOOL_SIZE + 1
    && |q.items| <= q.peak
    && q.mallocs - q.frees == |q.items| + q.pool
    && q.added == q.delivered + q.items
  }

  lemma StepKeepsSound(q: Queue, call: Call)
    requires Sound(q)
    ensures Sound(Step(q, call))
  {
    match call
    case CallAdd(m) =>
      assert q.delivered + (q.items + [m]) == q.delivered + q.items + [m];
    case CallGet =>
      if q.items != [] {
        assert q.items == [q.items[0]] + q.items[1..];
        assert q.delivered + q.items == q.delivered + [q.items[0]] + q.items[1..];
      }
    case CallGetTimedOut =>
  }

  /** Over every history: the pool stays within both bounds, nodes are conserved, and deliveries
      followed by the messages still queued are the additions in order. */
  lemma {:induction false} EveryRunIsSound(q: Queue, calls: seq<Call>)
    requires Sound(q)
    ensures Sound(Run(q, calls))
    decreases |calls|
  {
    if calls != [] {
      StepKeepsSound(q, calls[0]);
      EveryRunIsSound(Step(q, calls[0]), calls[1..]);
    }
  }

  /** The k-th delivery of any history is its k-th addition, so nothing is lost, duplicated or
      reordered; and a history's live nodes never exceed its peak by more than the pool allowance. */
  lemma DeliveriesAreAdditions(calls: seq<Call>)
    ensures var q := Run(EMPTY, calls);
            && |q.delivered| <= |q.added|
            && q.delivered == q.added[..|q.delivered|]
            && q.items == q.added[|q.delivered|..]
            && q.mallocs - q.frees <= q.peak + q.peak / 8 + MSGPOOL_SIZE + 1
  {
    EveryRunIsSound(EMPTY, calls);
  }

  /** One release never both keeps its node and trims the pool, and the trim removes at most the one
      node by which the bound can be missed. */
  lemma NeverPoolsAndTrims(pool: nat, length: nat)
    ensures !(Pools(pool, length) && Trims(pool, length))
    ensures pool <= (length + 1) / 4 + MSGPOOL_SIZE * 10
            ==> PoolAfterRelease(pool, length) <= length / 4 + MSGPOOL_SIZE * 10
  {
  }

  /** What a release does to the pool within its bound: up to length/8 + 256 nodes it grows by one, above
      length/4 + 2560 it shrinks by one, in between the released node is freed and the pool stays. */
  lemma ReleaseMovesPool(pool: nat, length: nat)
    ensures PoolAfterRelease(pool, length) ==
            if pool <= length / 8 + 256 then pool + 1 else if pool > length / 4 + 2560 then pool - 1 else pool
    ensures FreesOfRelease(pool, length) ==
            if pool <= length / 8 + 256 then 0 else if pool > length / 4 + 2560 then 2 else 1
  {
  }

  /** Each message added and taken again at once. */
  function InTurn(ms: seq<Message>): seq<Call> {
    if ms == [] then [] else [CallAdd(ms[0]), CallGet] + InTurn(ms[1..])
  }

  lemma OneRound(q: Queue, m: Message, rest: seq<Call>)
    ensures Run(q, [CallAdd(m), CallGet] + rest) == Run(Take(Add(q, m)), rest)
  {
    var calls := [CallAdd(m), CallGet] + rest;
    assert calls[1..] == [CallGet] + rest && ([CallGet] + rest)[1..] == rest;
    assert Run(q, calls) == Run(Add(q, m), [CallGet] + rest);
  }

  lemma {:induction false} PooledNodeIsReused(q: Queue, ms: seq<Message>)
    requires q.items == [] && 1 <= q.pool <= 257
    ensures var q' := Run(q, InTurn(ms)); q'.mallocs == q.mallocs && q'.frees == q.frees && q'.pool == q.pool
    decreases |ms|
  {
    if ms != [] {
      OneRound(q, ms[0], InTurn(ms[1..]));
      PooledNodeIsReused(Take(Add(q, ms[0])), ms[1..]);
    }
  }

  /** After such a run the queue is empty and the messages were delivered in turn. */
  lemma {:induction false} InTurnDelivers(q: Queue, ms: seq<Message>)
    requires q.items == []
    ensures var q' := Run(q, InTurn(ms)); q'.items == [] && q'.delivered == q.delivered + ms
    decreases |ms|
  {
    if ms != [] {
      OneRound(q, ms[0], InTurn(ms[1..]));
      InTurnDelivers(Take(Add(q, ms[0])), ms[1..]);
      assert ms == [ms[0]] + ms[1..];
    }
  }

  /** What the pool is for: any number of messages that are taken as soon as they are added needs one node. */
  lemma OneNodeForAll(ms: seq<Message>)
    requires ms != []
    ensures var q := Run(EMPTY, InTurn(ms)); q.mallocs == 1 && q.frees == 0 && q.items == [] && q.pool == 1
    ensures Run(EMPTY, InTurn(ms)).delivered == ms
  {
    var q1 := Take(Add(EMPTY, ms[0]));
    OneRound(EMPTY, ms[0], InTurn(ms[1..]));
    PooledNodeIsReused(q1, ms[1..]);
    InTurnDelivers(EMPTY, ms);
  }

  lemma {:induction false} RunAppends(q: Queue, calls: seq<Call>, c: Call)
    ensures Run(q, calls + [c]) == Step(Run(q, calls), c)
    decreases |calls|
  {
    if calls == [] {
      assert [] + [c] == [c];
    } else {
      assert (calls + [c])[1..] == calls[1..] + [c];
      RunAppends(Step(q, calls[0]), calls[1..], c);
    }
  }

  /** `peak` is the largest length any prefix of the history reached. */
  lemma {:induction false} PeakIsReached(calls: seq<Call>) returns (n: nat)
    ensures n <= |calls| && |Run(EMPTY, calls[..n]).items| == Run(EMPTY, calls).peak
    ensures forall k :: 0 <= k <= |calls| ==> |Run(EMPTY, calls[..k]).items| <= Run(EMPTY, calls).peak
  {
    if calls == [] {
      n := 0;
    } else {
      var front, c := calls[..|calls| - 1], calls[|calls| - 1];
      n := PeakIsReached(front);
      assert calls == front + [c] && calls[..|calls|] == calls;
      RunAppends(EMPTY, front, c);
      var q := Run(EMPTY, front);
      EveryRunIsSound(EMPTY, calls);
      forall k | 0 <= k <= |calls| ensures |Run(EMPTY, calls[..k]).items| <= Run(EMPTY, calls).peak {
        if k < |calls| {
          assert calls[..k] == front[..k];
        }
      }
      assert calls[..n] == front[..n];
      if Run(EMPTY, calls).peak != q.peak {
        n := |calls|;
      }
    }
  }
}
