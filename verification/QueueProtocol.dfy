/** Any number of threads using one queue (queue.c:73-158), interleaved at every point where the
    mutex lets another thread run. A thread inside a critical section advances statement by
    statement, so the invariants also cover the moments between two assignments. */
module QueueProtocol {
  import opened QueueSpec

  datatype Tid = Tid(id: nat)

  /** Something done by a thread. */
  datatype Tagged<T> = Tagged(who: Tid, what: T)

  type Addition = Tagged<Message>
  type Taking = Tagged<Addition>

  /** Where a thread is. A thread is between two calls when `Idle`. */
  datatype Pc =
    | Idle
    | AddEnter(m: Message)                        // wants the mutex
    | AddHolding(m: Message)                      // holds it, the node is filled but not linked
    | AddLinked                                   // linked, `length` not tested yet
    | AddNotified                                 // tested, and broadcast if it was 0
    | AddCounted                                  // `length` counts the new node
    | GetEnter(timed: bool)
    | GetTesting(timed: bool, timedOut: bool)     // holds the mutex, at the loop test
    | Asleep(timed: bool)                         // in the wait, not notified
    | Woken(timed: bool, timedOut: bool)          // out of the wait, wants the mutex back
    | GetUnlinked(taken: Addition)                // holds the mutex, `first` moved on
    | GetCounted(taken: Addition)                 // `length` is right again

  datatype Lock = Free | HeldBy(t: Tid)

  /** `length` is the counter of the struct and `items` the linked list; the other sequences are logs:
      the calls of add, the links, the unlinks, the messages gets returned, the gets that returned ETIMEDOUT
      (with the flag whether they were timed), and the sequential history. */
  datatype State = State(
    pcs: map<Tid, Pc>,
    lock: Lock,
    items: seq<Addition>,
    length: int,
    calls: seq<Addition>,
    added: seq<Addition>,
    taken: seq<Taking>,
    got: seq<Taking>,
    reported: seq<Tagged<bool>>,
    history: seq<Call>)

  const INIT := State(map[], Free, [], 0, [], [], [], [], [], [])

  /** A thread that has not done anything yet is between two calls. */
  function PcOf(s: State, t: Tid): Pc {
    if t in s.pcs then s.pcs[t] else Idle
  }

  predicate Holds(pc: Pc) {
    pc.AddHolding? || pc.AddLinked? || pc.AddNotified? || pc.AddCounted?
    || pc.GetTesting? || pc.GetUnlinked? || pc.GetCounted?
  }

  predicate InGet(pc: Pc) {
    pc.GetTesting? || pc.GetUnlinked? || pc.GetCounted?
  }

  /** `Advance` is the next statement of the thread that holds the mutex. `Expire` is the end of a
      timed wait, which can overtake a notification; `WakeAnyway` is a spurious wake-up. */
  datatype Action =
    | StartAdd(t: Tid, m: Message)
    | StartGet(t: Tid, timed: bool)
    | TakeLock(t: Tid)
    | Advance(t: Tid)
    | Expire(t: Tid)
    | WakeAnyway(t: Tid)

  predicate Enabled(s: State, a: Action) {
    var pc := PcOf(s, a.t);
    match a
    case StartAdd(_, _) => pc.Idle?
    case StartGet(_, _) => pc.Idle?
    case TakeLock(_) => s.lock.Free? && (pc.AddEnter? || pc.GetEnter? || pc.Woken?)
    case Advance(t) => s.lock == HeldBy(t)
    case Expire(_) => (pc.Asleep? && pc.timed) || (pc.Woken? && pc.timed && !pc.timedOut)
    case WakeAnyway(_) => pc.Asleep?
  }

  /** What one action does: the acting thread moves to `next`, the mutex and the counter get new
      values, all sleepers may be woken, the list gains a message at its end or loses its head, and a
      call may begin, return a message or ETIMEDOUT, or be over. */
  datatype Effect = Effect(
    next: Pc,
    lock: Lock,
    length: int,
    wakeAll: bool,
    called: seq<Message>,
    linked: seq<Message>,
    unlinks: bool,
    returned: seq<Addition>,
    reports: seq<bool>,
    completed: seq<Call>)

  function Move(s: State, next: Pc, lock: Lock): Effect {
    Effect(next, lock, s.length, false, [], [], false, [], [], [])
  }

  /** One statement of thread_queue_add inside its critical section. */
  function AddStatement(s: State, pc: Pc): Effect {
    match pc
    case AddHolding(m) => Move(s, AddLinked, s.lock).(linked := [m], completed := [CallAdd(m)])
    case AddLinked => Move(s, AddNotified, s.lock).(wakeAll := s.length == 0)
    case AddNotified => Move(s, AddCounted, s.lock).(length := s.length + 1)
    case AddCounted => Move(s, Idle, Free)
    case _ => Move(s, pc, s.lock)
  }

  /** One statement of thread_queue_get inside its critical section. */
  function GetStatement(s: State, pc: Pc): Effect {
    match pc
    case GetTesting(timed, timedOut) =>
      if timedOut then Move(s, Idle, Free).(reports := [timed], completed := [CallGetTimedOut])
      else if s.items == [] then Move(s, Asleep(timed), Free)
      else Move(s, GetUnlinked(s.items[0]), s.lock).(unlinks := true, completed := [CallGet])
    case GetUnlinked(a) => Move(s, GetCounted(a), s.lock).(length := if s.items == [] then 0 else s.length - 1)
    case GetCounted(a) => Move(s, Idle, Free).(returned := [a])
    case _ => Move(s, pc, s.lock)
  }

  function EffectOf(s: State, a: Action, pc: Pc): Effect {
    match a
    case StartAdd(_, m) => Move(s, AddEnter(m), s.lock).(called := [m])
    case StartGet(_, timed) => Move(s, GetEnter(timed), s.lock)
    case TakeLock(t) =>
      Move(s, match pc
              case AddEnter(m) => AddHolding(m)
              case GetEnter(timed) => GetTesting(timed, false)
              case Woken(timed, timedOut) => GetTesting(timed, timedOut)
              case _ => pc, HeldBy(t))
    case Advance(_) => if InGet(pc) then GetStatement(s, pc) else AddStatement(s, pc)
    case Expire(_) => Move(s, Woken(true, true), s.lock)
    case WakeAnyway(_) => Move(s, if pc.Asleep? then Woken(pc.timed, false) else pc, s.lock)
  }

  /** pthread_cond_broadcast */
  function WakeAll(pcs: map<Tid, Pc>): map<Tid, Pc> {
    map t | t in pcs :: if pcs[t].Asleep? then Woken(pcs[t].timed, false) else pcs[t]
  }

  function Tag<T>(t: Tid, whats: seq<T>): (r: seq<Tagged<T>>)
    ensures |r| == |whats|
  {
    seq(|whats|, i requires 0 <= i < |whats| => Tagged(t, whats[i]))
  }

  function Perform(s: State, t: Tid, e: Effect): State {
    State((if e.wakeAll then WakeAll(s.pcs) else s.pcs)[t := e.next],
          e.lock,
          (if e.unlinks && s.items != [] then s.items[1..] else s.items) + Tag(t, e.linked),
          e.length,
          s.calls + Tag(t, e.called),
          s.added + Tag(t, e.linked),
          s.taken + (if e.unlinks && s.items != [] then [Tagged(t, s.items[0])] else []),
          s.got + Tag(t, e.returned),
          s.reported + Tag(t, e.reports),
          s.history + e.completed)
  }

  function Apply(s: State, a: Action): State {
    Perform(s, a.t, EffectOf(s, a, PcOf(s, a.t)))
  }

  predicate Legal(s: State, actions: seq<Action>)
    decreases |actions|
  {
    actions == [] || (Enabled(s, actions[0]) && Legal(Apply(s, actions[0]), actions[1..]))
  }

  function RunActions(s: State, actions: seq<Action>): State
    decreases |actions|
  {
    if actions == [] then s else RunActions(Apply(s, actions[0]), actions[1..])
  }

  /** What one thread contributed to a log. */
  function By<T>(log: seq<Tagged<T>>, t: Tid): seq<T> {
    if log == [] then []
    else By(log[..|log| - 1], t) + if log[|log| - 1].who == t then [log[|log| - 1].what] else []
  }

  function Whats<T>(log: seq<Tagged<T>>): (r: seq<T>)
    ensures |r| == |log|
  {
    if log == [] then [] else Whats(log[..|log| - 1]) + [log[|log| - 1].what]
  }

  lemma AppendLog<T>(log: seq<Tagged<T>>, e: Tagged<T>, t: Tid)
    ensures By(log + [e], t) == By(log, t) + if e.who == t then [e.what] else []
    ensures Whats(log + [e]) == Whats(log) + [e.what]
  {
    assert (log + [e])[..|log|] == log;
  }

  lemma {:induction false} ByConcat<T>(a: seq<Tagged<T>>, b: seq<Tagged<T>>, t: Tid)
    ensures By(a + b, t) == By(a, t) + By(b, t)
  {
    if b == [] {
      assert a + b == a;
    } else {
      var b0 := b[..|b| - 1];
      assert a + b == a + b0 + [b[|b| - 1]];
      AppendLog(a + b0, b[|b| - 1], t);
      ByConcat(a, b0, t);
    }
  }

  // ---------------------------------------------------------------------------------------------
  // Invariants
  // ---------------------------------------------------------------------------------------------

  /** Mutual exclusion. */
  ghost predicate Mutex(s: State) {
    forall t :: Holds(PcOf(s, t)) <==> s.lock == HeldBy(t)
  }

  /** How far the counter is from the list at each point of a critical section. */
  function Lag(s: State): int {
    if s.lock.Free? then 0
    else match PcOf(s, s.lock.t)
         case AddLinked => -1
         case AddNotified => -1
         case GetUnlinked(_) => 1
         case _ => 0
  }

  ghost predicate Counted(s: State) {
    s.length == |s.items| + Lag(s)
  }

  /** A thread sleeps un-notified only while the queue is empty, or while the thread that just
      linked the first message is about to broadcast. */
  ghost predicate SleepersAreRight(s: State) {
    forall t :: PcOf(s, t).Asleep? ==>
      s.items == [] || (s.lock.HeldBy? && PcOf(s, s.lock.t).AddLinked? && s.length == 0)
  }

  /** The messages a thread has asked to add but not linked, and has unlinked but not returned. */
  function Unlinked(pc: Pc): seq<Message> {
    match pc
    case AddEnter(m) => [m]
    case AddHolding(m) => [m]
    case _ => []
  }

  function InHand(pc: Pc): seq<Addition> {
    match pc
    case GetUnlinked(a) => [a]
    case GetCounted(a) => [a]
    case _ => []
  }

  ghost predicate ThreadLogs(s: State, t: Tid) {
    && By(s.calls, t) == By(s.added, t) + Unlinked(PcOf(s, t))
    && By(s.taken, t) == By(s.got, t) + InHand(PcOf(s, t))
  }

  ghost predicate Fifo(s: State) {
    s.added == Whats(s.taken) + s.items
  }

  /** The sequential history, run one call after the other, explains the logs. */
  ghost predicate Explained(s: State) {
    var q := Run(EMPTY, s.history);
    q.items == Whats(s.items) && q.added == Whats(s.added) && q.delivered == Whats(Whats(s.taken))
  }

  ghost predicate Inv(s: State) {
    Mutex(s) && Counted(s) && SleepersAreRight(s) && Fifo(s) && Explained(s) && forall t :: ThreadLogs(s, t)
  }

  /** Nothing a thread does moves another thread, except that a broadcast wakes it. */
  lemma OthersUnmoved(s: State, a: Action, t: Tid)
    requires t != a.t
    ensures var pc, pc' := PcOf(s, t), PcOf(Apply(s, a), t);
            pc' == pc || (EffectOf(s, a, PcOf(s, a.t)).wakeAll && pc.Asleep? && pc' == Woken(pc.timed, false))
  {
  }

  lemma StepKeepsMutex(s: State, a: Action)
    requires Mutex(s) && Enabled(s, a)
    ensures Mutex(Apply(s, a))
  {
    var s' := Apply(s, a);
    assert Holds(PcOf(s, a.t)) <==> s.lock == HeldBy(a.t);
    forall t ensures Holds(PcOf(s', t)) <==> s'.lock == HeldBy(t) {
      if t != a.t {
        OthersUnmoved(s, a, t);
        assert Holds(PcOf(s, t)) <==> s.lock == HeldBy(t);
      }
    }
  }

  lemma StepKeepsCounted(s: State, a: Action)
    requires Mutex(s) && Counted(s) && Enabled(s, a)
    ensures Counted(Apply(s, a))
  {
    assert Holds(PcOf(s, a.t)) <==> s.lock == HeldBy(a.t);
    if s.lock.HeldBy? {
      assert Holds(PcOf(s, s.lock.t));
      if s.lock.t != a.t {
        OthersUnmoved(s, a, s.lock.t);
      }
    }
  }

  lemma StepKeepsSleepers(s: State, a: Action)
    requires Mutex(s) && Counted(s) && SleepersAreRight(s) && Enabled(s, a)
    ensures SleepersAreRight(Apply(s, a))
  {
    var s' := Apply(s, a);
    assert Holds(PcOf(s, a.t)) <==> s.lock == HeldBy(a.t);
    forall t | PcOf(s', t).Asleep?
      ensures s'.items == [] || (s'.lock.HeldBy? && PcOf(s', s'.lock.t).AddLinked? && s'.length == 0)
    {
      if t != a.t {
        OthersUnmoved(s, a, t);
        assert PcOf(s, t).Asleep?;
        assert s.items == [] || (s.lock.HeldBy? && PcOf(s, s.lock.t).AddLinked? && s.length == 0);
      }
      if s.lock.HeldBy? && s.lock.t != a.t {
        assert Holds(PcOf(s, s.lock.t));
        OthersUnmoved(s, a, s.lock.t);
      }
    }
  }

  lemma PerformKeepsFifo(s: State, t: Tid, e: Effect)
    requires Fifo(s)
    ensures Fifo(Perform(s, t, e))
  {
    var s' := Perform(s, t, e);
    var link := Tag(t, e.linked);
    if e.unlinks && s.items != [] {
      AppendLog(s.taken, Tagged(t, s.items[0]), t);
      assert s.items == [s.items[0]] + s.items[1..];
      assert s'.added == Whats(s.taken) + [s.items[0]] + (s.items[1..] + link);
    } else {
      assert s'.taken == s.taken;
      assert s'.added == Whats(s.taken) + (s.items + link);
    }
  }

  /** What an action does to the message its thread has in hand, it does to that thread's logs. */
  lemma EffectMovesMessages(s: State, a: Action)
    requires Enabled(s, a) && (s.lock == HeldBy(a.t) ==> Holds(PcOf(s, a.t)))
    ensures var pc := PcOf(s, a.t);
            var e := EffectOf(s, a, pc);
            && Unlinked(pc) + e.called == e.linked + Unlinked(e.next)
            && InHand(pc) + (if e.unlinks then [s.items[0]] else []) == e.returned + InHand(e.next)
            && (e.unlinks ==> s.items != [])
  {
  }

  lemma {:induction false} ByTag<T>(log: seq<Tagged<T>>, t: Tid, whats: seq<T>, u: Tid)
    ensures By(log + Tag(t, whats), u) == By(log, u) + if t == u then whats else []
  {
    if whats == [] {
      assert log + Tag(t, whats) == log;
    } else {
      var n := |whats| - 1;
      assert log + Tag(t, whats) == log + Tag(t, whats[..n]) + [Tagged(t, whats[n])];
      AppendLog(log + Tag(t, whats[..n]), Tagged(t, whats[n]), u);
      ByTag(log, t, whats[..n], u);
      assert whats == whats[..n] + [whats[n]];
    }
  }

  lemma Regroup<T>(whole: seq<T>, done: seq<T>, hand: seq<T>, more: seq<T>, moved: seq<T>, hand': seq<T>)
    requires whole == done + hand && hand + more == moved + hand'
    ensures whole + more == done + moved + hand'
  {
    assert whole + more == done + (hand + more);
  }

  /** What a thread holds after an action is what the action gave it, or what it held before. */
  lemma HandAfter(s: State, t: Tid, e: Effect, u: Tid)
    ensures var pc' := PcOf(Perform(s, t, e), u);
            if t == u then pc' == e.next
            else Unlinked(pc') == Unlinked(PcOf(s, u)) && InHand(pc') == InHand(PcOf(s, u))
  {
  }

  lemma PerformKeepsAddLog(s: State, t: Tid, e: Effect, u: Tid)
    requires By(s.calls, u) == By(s.added, u) + Unlinked(PcOf(s, u))
    requires Unlinked(PcOf(s, t)) + e.called == e.linked + Unlinked(e.next)
    ensures By(s.calls + Tag(t, e.called), u)
         == By(s.added + Tag(t, e.linked), u) + Unlinked(if t == u then e.next else PcOf(s, u))
  {
    ByTag(s.calls, t, e.called, u);
    ByTag(s.added, t, e.linked, u);
    if u == t {
      Regroup(By(s.calls, u), By(s.added, u), Unlinked(PcOf(s, t)), e.called, e.linked, Unlinked(e.next));
    }
  }

  lemma PerformKeepsGetLog(s: State, t: Tid, e: Effect, u: Tid, unlink: seq<Addition>)
    requires By(s.taken, u) == By(s.got, u) + InHand(PcOf(s, u))
    requires InHand(PcOf(s, t)) + unlink == e.returned + InHand(e.next)
    ensures By(s.taken + Tag(t, unlink), u)
         == By(s.got + Tag(t, e.returned), u) + InHand(if t == u then e.next else PcOf(s, u))
  {
    ByTag(s.taken, t, unlink, u);
    ByTag(s.got, t, e.returned, u);
    if u == t {
      Regroup(By(s.taken, u), By(s.got, u), InHand(PcOf(s, t)), unlink, e.returned, InHand(e.next));
    }
  }

  lemma TakenLog(s: State, t: Tid, e: Effect)
    requires e.unlinks ==> s.items != []
    ensures Perform(s, t, e).taken == s.taken + Tag(t, if e.unlinks then [s.items[0]] else [])
  {
    if e.unlinks {
      assert Tag(t, [s.items[0]]) == [Tagged(t, s.items[0])];
    } else {
      assert Tag<Addition>(t, []) == [];
    }
  }

  lemma PerformKeepsThreadLogs(s: State, t: Tid, e: Effect, u: Tid)
    requires ThreadLogs(s, u) && (e.unlinks ==> s.items != [])
    requires Unlinked(PcOf(s, t)) + e.called == e.linked + Unlinked(e.next)
    requires InHand(PcOf(s, t)) + (if e.unlinks then [s.items[0]] else []) == e.returned + InHand(e.next)
    ensures ThreadLogs(Perform(s, t, e), u)
  {
    var unlink := if e.unlinks then [s.items[0]] else [];
    HandAfter(s, t, e, u);
    PerformKeepsAddLog(s, t, e, u);
    PerformKeepsGetLog(s, t, e, u, unlink);
    TakenLog(s, t, e);
  }

  lemma {:induction false} WhatsTail<T>(log: seq<Tagged<T>>)
    requires log != []
    ensures Whats(log)[0] == log[0].what && Whats(log)[1..] == Whats(log[1..])
  {
    if |log| > 1 {
      WhatsTail(log[..|log| - 1]);
      assert log[1..][..|log[1..]| - 1] == log[..|log| - 1][1..];
    } else {
      assert log[1..] == [];
    }
  }

  /** A call is over, for the history, when its effect on the list happens. */
  lemma EffectCompletes(s: State, a: Action)
    requires Enabled(s, a)
    ensures var e := EffectOf(s, a, PcOf(s, a.t));
            if e.linked != [] then !e.unlinks && |e.linked| == 1 && e.completed == [CallAdd(e.linked[0])]
            else if e.unlinks then s.items != [] && e.completed == [CallGet]
            else e.completed == [] || e.completed == [CallGetTimedOut]
  {
  }

  /** The logs of messages after a link, after an unlink and after neither. */
  lemma LinkLogs(s: State, t: Tid, e: Effect, m: Message)
    requires e.linked == [m] && !e.unlinks
    ensures var s' := Perform(s, t, e);
            && Whats(s'.items) == Whats(s.items) + [m] && Whats(s'.added) == Whats(s.added) + [m]
            && s'.taken == s.taken
  {
    assert Tag(t, e.linked) == [Tagged(t, m)];
    AppendLog(s.items, Tagged(t, m), t);
    AppendLog(s.added, Tagged(t, m), t);
  }

  lemma UnlinkLogs(s: State, t: Tid, e: Effect)
    requires e.linked == [] && e.unlinks && s.items != []
    ensures var s' := Perform(s, t, e);
            && Whats(s'.items) == Whats(s.items)[1..] && s'.added == s.added
            && Whats(Whats(s'.taken)) == Whats(Whats(s.taken)) + [Whats(s.items)[0]]
  {
    var s' := Perform(s, t, e);
    WhatsTail(s.items);
    assert s'.items == s.items[1..] && s'.added == s.added;
    AppendLog(s.taken, Tagged(t, s.items[0]), t);
    AppendLog(Whats(s.taken), s.items[0], t);
  }

  lemma PerformKeepsExplained(s: State, t: Tid, e: Effect)
    requires Explained(s)
    requires if e.linked != [] then !e.unlinks && |e.linked| == 1 && e.completed == [CallAdd(e.linked[0])]
             else if e.unlinks then s.items != [] && e.completed == [CallGet]
             else e.completed == [] || e.completed == [CallGetTimedOut]
    ensures Explained(Perform(s, t, e))
  {
    var s' := Perform(s, t, e);
    if e.completed != [] {
      RunAppends(EMPTY, s.history, e.completed[0]);
    } else {
      assert s'.history == s.history;
    }
    if e.linked != [] {
      LinkLogs(s, t, e, e.linked[0]);
    } else if e.unlinks {
      UnlinkLogs(s, t, e);
    } else {
      assert s'.items == s.items && s'.added == s.added && s'.taken == s.taken;
    }
  }

  lemma StepKeepsInv(s: State, a: Action)
    requires Inv(s) && Enabled(s, a)
    ensures Inv(Apply(s, a))
  {
    var e := EffectOf(s, a, PcOf(s, a.t));
    assert s.lock == HeldBy(a.t) ==> Holds(PcOf(s, a.t));
    EffectMovesMessages(s, a);
    EffectCompletes(s, a);
    StepKeepsMutex(s, a);
    StepKeepsCounted(s, a);
    StepKeepsSleepers(s, a);
    PerformKeepsFifo(s, a.t, e);
    PerformKeepsExplained(s, a.t, e);
    forall t ensures ThreadLogs(Apply(s, a), t) {
      assert ThreadLogs(s, t);
      PerformKeepsThreadLogs(s, a.t, e, t);
    }
  }

  lemma {:induction false} RunKeepsInv(s: State, actions: seq<Action>)
    requires Inv(s) && Legal(s, actions)
    ensures Inv(RunActions(s, actions))
    decreases |actions|
  {
    if actions != [] {
      StepKeepsInv(s, actions[0]);
      RunKeepsInv(Apply(s, actions[0]), actions[1..]);
    }
  }

  /** What holds after any interleaving of any number of threads. */
  lemma Reached(actions: seq<Action>) returns (s: State)
    requires Legal(INIT, actions)
    ensures s == RunActions(INIT, actions) && Inv(s)
  {
    s := RunActions(INIT, actions);
    RunKeepsInv(INIT, actions);
  }

  // ---------------------------------------------------------------------------------------------
  // Main results
  // ---------------------------------------------------------------------------------------------

  /** No lost wake-up: whenever the mutex is free and a message waits, no consumer is asleep
      un-notified, although add broadcasts only when the counter is 0. */
  lemma NoLostWakeup(actions: seq<Action>)
    requires Legal(INIT, actions)
    ensures var s := RunActions(INIT, actions);
            s.lock.Free? && s.items != [] ==> forall t :: !PcOf(s, t).Asleep?
  {
    var s := Reached(actions);
    forall t | s.lock.Free? && s.items != [] ensures !PcOf(s, t).Asleep? {
      if PcOf(s, t).Asleep? {
        assert false;
      }
    }
  }

  /** Exactly once and in order: the k-th unlink takes the k-th link, what is left is the queue, and
      for every pair of threads the messages of the producer reach consumers in the order of its
      calls. */
  lemma DeliveredOnceInOrder(actions: seq<Action>, producer: Tid)
    requires Legal(INIT, actions)
    ensures var s := RunActions(INIT, actions);
            && |s.taken| <= |s.added|
            && Whats(s.taken) == s.added[..|s.taken|]
            && s.items == s.added[|s.taken|..]
            && By(Whats(s.taken), producer) <= By(s.calls, producer)
  {
    var s := Reached(actions);
    ByConcat(Whats(s.taken), s.items, producer);
    assert ThreadLogs(s, producer);
  }

  /** A consumer's gets return exactly what it unlinked: a call that reported ETIMEDOUT (it appends
      nothing to `got`) took nothing from the queue. */
  lemma TimedOutGetTookNothing(actions: seq<Action>, consumer: Tid)
    requires Legal(INIT, actions)
    ensures var s := RunActions(INIT, actions);
            && By(s.got, consumer) <= By(s.taken, consumer)
            && (PcOf(s, consumer).Idle? ==> By(s.got, consumer) == By(s.taken, consumer))
  {
    var s := Reached(actions);
    assert ThreadLogs(s, consumer);
  }

  /** Every interleaving is explained by one sequential history in lock order, so the pool bounds and
      node conservation proved for histories hold in every interleaving. */
  lemma Linearizable(actions: seq<Action>)
    requires Legal(INIT, actions)
    ensures var s := RunActions(INIT, actions);
            var q := Run(EMPTY, s.history);
            && q.items == Whats(s.items) && q.added == Whats(s.added) && q.delivered == Whats(Whats(s.taken))
            && Sound(q)
  {
    var s := Reached(actions);
    EveryRunIsSound(EMPTY, s.history);
  }

  /** `n` statements of thread `t` in a row. */
  function Advances(t: Tid, n: nat): seq<Action> {
    if n == 0 then [] else [Action.Advance(t)] + Advances(t, n - 1)
  }

  /** How many statements the holder of the mutex still has to run before it lets go. */
  function ToRelease(s: State, t: Tid): nat {
    match PcOf(s, t)
    case AddHolding(_) => 4
    case AddLinked => 3
    case AddNotified => 2
    case AddCounted => 1
    case GetTesting(_, timedOut) => if timedOut || s.items == [] then 1 else 3
    case GetUnlinked(_) => 2
    case GetCounted(_) => 1
    case _ => 0
  }

  lemma FirstAction(s: State, a: Action, rest: seq<Action>)
    requires Enabled(s, a)
    ensures Legal(s, [a] + rest) == Legal(Apply(s, a), rest)
    ensures RunActions(s, [a] + rest) == RunActions(Apply(s, a), rest)
  {
    assert ([a] + rest)[1..] == rest;
  }

  /** No deadlock: from every reachable state the holder of the mutex can run on alone and releases
      it within four statements. */
  lemma {:induction false} HolderReleases(s: State, t: Tid)
    requires Mutex(s) && s.lock == HeldBy(t)
    ensures 1 <= ToRelease(s, t) <= 4
    ensures Legal(s, Advances(t, ToRelease(s, t)))
    ensures RunActions(s, Advances(t, ToRelease(s, t))).lock.Free?
    decreases ToRelease(s, t)
  {
    assert Holds(PcOf(s, t));
    var a := Action.Advance(t);
    var n := ToRelease(s, t);
    FirstAction(s, a, Advances(t, n - 1));
    StepKeepsMutex(s, a);
    if n > 1 {
      HolderReleases(Apply(s, a), t);
    }
  }

  /** A consumer that has called get and has not timed out. */
  predicate InCall(pc: Pc) {
    pc.GetEnter? || pc.Asleep? || (pc.Woken? && !pc.timedOut)
  }

  /** The three statements of a get that finds a message: unlink, count, return. */
  lemma UnlinksHead(s: State, c: Tid, timed: bool)
    requires s.lock == HeldBy(c) && PcOf(s, c) == GetTesting(timed, false) && s.items != []
    ensures var s' := Apply(s, Action.Advance(c));
            && s'.lock == HeldBy(c) && PcOf(s', c) == GetUnlinked(s.items[0])
            && s'.items == s.items[1..] && s'.got == s.got
  {
  }

  lemma CountsAndReturns(s: State, c: Tid, a: Addition)
    requires s.lock == HeldBy(c) && PcOf(s, c) == GetUnlinked(a)
    ensures var s' := RunActions(s, Advances(c, 2)); s'.got == s.got + [Tagged(c, a)] && s'.items == s.items
  {
    var s1 := Apply(s, Action.Advance(c));
    FirstAction(s, Action.Advance(c), Advances(c, 1));
    FirstAction(s1, Action.Advance(c), Advances(c, 0));
    assert PcOf(s1, c) == GetCounted(a);
  }

  // ---------------------------------------------------------------------------------------------
  // How a get ends
  // ---------------------------------------------------------------------------------------------

  /** A thread that has called get and has not returned. */
  predicate InsideGet(pc: Pc) {
    pc.GetEnter? || pc.GetTesting? || pc.Asleep? || pc.Woken? || pc.GetUnlinked? || pc.GetCounted?
  }

  function One(b: bool): nat {
    if b then 1 else 0
  }

  /** How often a thread called get. */
  function GetCount(actions: seq<Action>, t: Tid): nat {
    if actions == [] then 0
    else
      var last := actions[|actions| - 1];
      GetCount(actions[..|actions| - 1], t) + One(last.StartGet? && last.t == t)
  }

  datatype GetCall = NoGet | GetCall(timed: bool, expired: bool)

  /** What an action of a thread makes of its last call of get. */
  function NextCall(call: GetCall, a: Action): GetCall {
    if a.StartGet? then GetCall(a.timed, false)
    else if a.Expire? && call.GetCall? then call.(expired := true)
    else call
  }

  /** The last call of get by a thread: was it timed, and did the time run out since? */
  function LastGet(actions: seq<Action>, t: Tid): GetCall {
    if actions == [] then NoGet
    else
      var before, last := LastGet(actions[..|actions| - 1], t), actions[|actions| - 1];
      if last.t == t then NextCall(before, last) else before
  }

  lemma {:induction false} RunSnoc(s: State, actions: seq<Action>, a: Action)
    ensures RunActions(s, actions + [a]) == Apply(RunActions(s, actions), a)
    ensures Legal(s, actions + [a]) <==> Legal(s, actions) && Enabled(RunActions(s, actions), a)
    decreases |actions|
  {
    if actions == [] {
      assert [] + [a] == [a] && [a][1..] == [];
    } else {
      assert (actions + [a])[1..] == actions[1..] + [a];
      RunSnoc(Apply(s, actions[0]), actions[1..], a);
    }
  }

  /** What an action does to a get, it does to the logs of what gets returned. */
  lemma EffectEndsGets(s: State, a: Action)
    requires Enabled(s, a)
    ensures var pc := PcOf(s, a.t);
            var e := EffectOf(s, a, pc);
            |e.returned| + |e.reports| + One(InsideGet(e.next)) == One(InsideGet(pc)) + One(a.StartGet?)
  {
  }

  lemma ActorAfter(s: State, a: Action)
    ensures PcOf(Apply(s, a), a.t) == EffectOf(s, a, PcOf(s, a.t)).next
  {
  }

  lemma ResultsAfter(s: State, a: Action, t: Tid)
    ensures var e := EffectOf(s, a, PcOf(s, a.t));
            && By(Apply(s, a).got, t) == By(s.got, t) + (if a.t == t then e.returned else [])
            && By(Apply(s, a).reported, t) == By(s.reported, t) + (if a.t == t then e.reports else [])
  {
    var e := EffectOf(s, a, PcOf(s, a.t));
    ByTag(s.got, a.t, e.returned, t);
    ByTag(s.reported, a.t, e.reports, t);
  }

  /** In every interleaving each call of get has returned one message, or has returned ETIMEDOUT, or is
      still inside: none returns with neither. */
  lemma {:induction false} EveryGetIsAccounted(actions: seq<Action>, t: Tid)
    requires Legal(INIT, actions)
    ensures var s := RunActions(INIT, actions);
            GetCount(actions, t) == |By(s.got, t)| + |By(s.reported, t)| + One(InsideGet(PcOf(s, t)))
  {
    if actions != [] {
      var front, a := actions[..|actions| - 1], actions[|actions| - 1];
      assert actions == front + [a];
      RunSnoc(INIT, front, a);
      EveryGetIsAccounted(front, t);
      var s := RunActions(INIT, front);
      EffectEndsGets(s, a);
      ResultsAfter(s, a, t);
      if a.t == t {
        ActorAfter(s, a);
      } else {
        OthersUnmoved(s, a, t);
      }
    }
  }

  /** What a waiting get knows of its call. */
  predicate KnowsCall(pc: Pc, call: GetCall) {
    match pc
    case GetEnter(timed) => call.GetCall? && call.timed == timed
    case GetTesting(timed, timedOut) => call.GetCall? && call.timed == timed && (timedOut ==> timed && call.expired)
    case Asleep(timed) => call.GetCall? && call.timed == timed
    case Woken(timed, timedOut) => call.GetCall? && call.timed == timed && (timedOut ==> timed && call.expired)
    case _ => true
  }

  lemma EffectKnowsCall(s: State, a: Action, call: GetCall)
    requires Enabled(s, a) && KnowsCall(PcOf(s, a.t), call)
    ensures KnowsCall(EffectOf(s, a, PcOf(s, a.t)).next, NextCall(call, a))
  {
  }

  lemma {:induction false} GetKnowsItsCall(actions: seq<Action>, t: Tid)
    requires Legal(INIT, actions)
    ensures KnowsCall(PcOf(RunActions(INIT, actions), t), LastGet(actions, t))
  {
    if actions != [] {
      var front, a := actions[..|actions| - 1], actions[|actions| - 1];
      assert actions == front + [a];
      RunSnoc(INIT, front, a);
      GetKnowsItsCall(front, t);
      var s := RunActions(INIT, front);
      if a.t == t {
        EffectKnowsCall(s, a, LastGet(front, t));
        ActorAfter(s, a);
      } else {
        OthersUnmoved(s, a, t);
      }
    }
  }

  /** A get ends in exactly one of two ways: it returns one message, or it reports ETIMEDOUT, and then it was
      timed and its time ran out. So an untimed get that is over has returned exactly one message. */
  lemma GetEndsOneWay(actions: seq<Action>, a: Action)
    requires Legal(INIT, actions + [a])
    requires var s := RunActions(INIT, actions); InsideGet(PcOf(s, a.t)) && !InsideGet(PcOf(Apply(s, a), a.t))
    ensures var s := RunActions(INIT, actions);
            var s' := RunActions(INIT, actions + [a]);
            if |By(s'.got, a.t)| == |By(s.got, a.t)| + 1
            then By(s'.reported, a.t) == By(s.reported, a.t)
            else && By(s'.got, a.t) == By(s.got, a.t) && |By(s'.reported, a.t)| == |By(s.reported, a.t)| + 1
                 && LastGet(actions, a.t) == GetCall(true, true)
  {
    var s := RunActions(INIT, actions);
    RunSnoc(INIT, actions, a);
    EffectEndsGets(s, a);
    ResultsAfter(s, a, a.t);
    ActorAfter(s, a);
    GetKnowsItsCall(actions, a.t);
  }

  lemma ThreeActions(s: State, a: Action, b: Action, c: Action)
    ensures RunActions(s, [a, b, c]) == Apply(Apply(Apply(s, a), b), c)
    ensures Legal(s, [a, b, c])
       <==> Enabled(s, a) && Enabled(Apply(s, a), b) && Enabled(Apply(Apply(s, a), b), c)
  {
    assert [] + [a] == [a] && [a] + [b] == [a, b] && [a, b] + [c] == [a, b, c];
    RunSnoc(s, [], a);
    RunSnoc(s, [a], b);
    RunSnoc(s, [a, b], c);
  }

  /** A get that finds the queue empty sleeps, and gives the mutex back. */
  lemma GetOnEmptySleeps(s: State, c: Tid, timed: bool)
    requires PcOf(s, c).Idle? && s.lock.Free? && s.items == []
    ensures var run := [StartGet(c, timed), TakeLock(c), Action.Advance(c)];
            && Legal(s, run)
            && var s' := RunActions(s, run);
               PcOf(s', c) == Asleep(timed) && s'.lock.Free? && s'.items == [] && s'.got == s.got && s'.reported == s.reported
  {
    var s1 := Apply(s, StartGet(c, timed));
    var s2 := Apply(s1, TakeLock(c));
    ThreeActions(s, StartGet(c, timed), TakeLock(c), Action.Advance(c));
    assert PcOf(s2, c) == GetTesting(timed, false);
    assert s2.got == s.got && s2.reported == s.reported;
  }

  /** A sleeper woken for no reason finds the queue empty and sleeps again. */
  lemma SpuriousWakeSleepsAgain(s: State, c: Tid)
    requires PcOf(s, c).Asleep? && s.lock.Free? && s.items == []
    ensures var run := [WakeAnyway(c), TakeLock(c), Action.Advance(c)];
            && Legal(s, run)
            && var s' := RunActions(s, run);
               PcOf(s', c) == PcOf(s, c) && s'.lock.Free? && s'.got == s.got && s'.reported == s.reported
  {
    ThreeActions(s, WakeAnyway(c), TakeLock(c), Action.Advance(c));
    var s2 := Apply(Apply(s, WakeAnyway(c)), TakeLock(c));
    assert PcOf(s2, c) == GetTesting(PcOf(s, c).timed, false);
    assert s2.got == s.got && s2.reported == s.reported;
  }

  /** A wait whose time ran out ends with ETIMEDOUT as soon as the thread has the mutex, and takes nothing,
      even if a message arrived meanwhile. */
  lemma ExpiredGetReports(s: State, c: Tid)
    requires Enabled(s, Expire(c)) && s.lock.Free?
    ensures var run := [Expire(c), TakeLock(c), Action.Advance(c)];
            && Legal(s, run)
            && var s' := RunActions(s, run);
               && PcOf(s', c).Idle? && s'.lock.Free? && s'.items == s.items && s'.got == s.got
               && s'.reported == s.reported + [Tagged(c, true)]
  {
    ThreeActions(s, Expire(c), TakeLock(c), Action.Advance(c));
    var s2 := Apply(Apply(s, Expire(c)), TakeLock(c));
    assert PcOf(s2, c) == GetTesting(true, true);
    assert s2.got == s.got && s2.reported == s.reported;
  }

  /** The statement after linking wakes the sleepers if and only if the counter is 0. */
  lemma BroadcastsIffCounterZero(s: State, p: Tid, c: Tid)
    requires s.lock == HeldBy(p) && PcOf(s, p).AddLinked? && PcOf(s, c).Asleep?
    ensures PcOf(Apply(s, Action.Advance(p)), c) == if s.length == 0 then Woken(PcOf(s, c).timed, false) else PcOf(s, c)
  {
  }

  /** A waiting message can always be had: when the mutex is free, every consumer inside get that
      has not timed out can take it and return the head of the queue without anybody's help. */
  lemma ConsumerIsServed(s: State, c: Tid)
    requires Inv(s) && s.lock.Free? && s.items != [] && InCall(PcOf(s, c))
    ensures var serve := [TakeLock(c)] + Advances(c, 3);
            && Legal(s, serve)
            && var s' := RunActions(s, serve);
               s'.got == s.got + [Tagged(c, s.items[0])] && s'.items == s.items[1..] && s'.lock.Free?
  {
    assert !PcOf(s, c).Asleep?;
    var s1 := Apply(s, TakeLock(c));
    StepKeepsMutex(s, TakeLock(c));
    FirstAction(s, TakeLock(c), Advances(c, 3));
    HolderReleases(s1, c);
    UnlinksHead(s1, c, PcOf(s1, c).timed);
    FirstAction(s1, Action.Advance(c), Advances(c, 2));
    CountsAndReturns(Apply(s1, Action.Advance(c)), c, s.items[0]);
  }
}
