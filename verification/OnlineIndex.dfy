/** The index of online users (chat-server.c:329-345, 434-442, 630-637): when it is right, and that the
    hash map serves it. */
module OnlineIndex {
  import opened Basics
  import opened Wire
  import opened TextFiles
  import opened Accounts
  import opened HashTable
  import opened HashMaps
  import opened ServerSpec

  /** The uid is held by this open connection. */
  predicate IsOnlineAs(s: State, c: Ptr, uid: nat) {
    c in s.conns && s.conns[c].uid != NOT_LOGGED_IN && s.conns[c].uid == uid
  }

  /** The index maps a uid to a connection exactly when that connection is open and logged in as it;
      nobody is logged in as uid 0. */
  ghost predicate Agrees(s: State) {
    && (forall uid: nat, c :: (UidKey(uid) in s.active && s.active[UidKey(uid)] == c) <==> IsOnlineAs(s, c, uid))
    && (forall c :: c in s.conns ==> s.conns[c].uid != 0)
  }

  lemma AgreesAt(s: State, uid: nat, c: Ptr)
    requires Agrees(s)
    ensures (UidKey(uid) in s.active && s.active[UidKey(uid)] == c) <==> IsOnlineAs(s, c, uid)
  {
  }

  /** Nothing the index names is a closed connection, and no uid has two connections. */
  lemma OnlyOpenConnections(s: State, key: Key)
    requires Agrees(s) && key in s.active
    ensures s.active[key] in s.conns && s.conns[s.active[key]].uid == key.bits
    ensures forall c :: IsOnlineAs(s, c, key.bits) ==> c == s.active[key]
  {
    assert UidKey(key.bits) == key;
    assert IsOnlineAs(s, s.active[key], key.bits);
  }

  /** In a table that stands for a right index, two used slots hold different connections. */
  lemma SlotsHoldDistinct(mix: Mix, t: Table, s: State, p: nat, q: nat)
    requires Agrees(s) && Represents(mix, t, s.active)
    requires p < q < |t.slots| && t.slots[p].inUse && t.slots[q].inUse
    ensures t.slots[p].data != t.slots[q].data
  {
    var key, n := t.slots[p].key, |t.slots|;
    UsedKeyIsIn(mix, t, s.active, p);
    UsedKeyIsIn(mix, t, s.active, q);
    OnlyOpenConnections(s, key);
    OnlyOpenConnections(s, t.slots[q].key);
    if t.slots[q].key == key {
      var home := Home(mix, key, n);
      assert |Stack(mix, t.slots, key)| <= 1;
      assert Pos(home, Offset(home, p, n), n) == p && Pos(home, Offset(home, q, n), n) == q;
      if Offset(home, p, n) < Offset(home, q, n) {
        TwoSlotsTwoValues(t.slots, home, key, 0, p, q);
      } else {
        TwoSlotsTwoValues(t.slots, home, key, 0, q, p);
      }
    }
  }

  /** A logged-in connection has a used slot. */
  lemma OnlineHasSlot(mix: Mix, t: Table, s: State, c: Ptr)
    requires Agrees(s) && Represents(mix, t, s.active) && c in s.conns && s.conns[c].uid != NOT_LOGGED_IN
    ensures exists p :: 0 <= p < |t.slots| && t.slots[p].inUse && t.slots[p].data == c
  {
    var key := UidKey(s.conns[c].uid);
    AgreesAt(s, s.conns[c].uid, c);
    assert Stack(mix, t.slots, key) == [c];
    KeyStepMeetsTop(mix, t.slots, key);
    var home := Home(mix, key, |t.slots|);
    var p := Pos(home, KeyStep(t.slots, home, key, 0), |t.slots|);
    assert Stack(mix, t.slots, key)[0] == t.slots[p].data;
  }

  /** Iterating over a table that stands for a right index meets every logged-in connection exactly once and
      no other. */
  lemma IterationIsOnlineOrder(mix: Mix, t: Table, s: State)
    requires Agrees(s) && Represents(mix, t, s.active)
    ensures OnlineOrder(s, UsedFrom(t.slots, 0))
    ensures var v := UsedFrom(t.slots, 0);
            && (forall i, j :: 0 <= i < j < |v| ==> v[i] != v[j])
            && forall c :: c in v <==> c in s.conns && s.conns[c].uid != NOT_LOGGED_IN
  {
    var v := UsedFrom(t.slots, 0);
    forall p, q | 0 <= p < q < |t.slots| && t.slots[p].inUse && t.slots[q].inUse
      ensures t.slots[p].data != t.slots[q].data
    {
      SlotsHoldDistinct(mix, t, s, p, q);
    }
    UsedAreDistinct(t.slots, 0);
    forall c ensures c in v <==> c in s.conns && s.conns[c].uid != NOT_LOGGED_IN {
      UsedAreMet(t.slots, 0, c);
      if c in v {
        var p :| 0 <= p < |t.slots| && t.slots[p].inUse && t.slots[p].data == c;
        UsedKeyIsIn(mix, t, s.active, p);
        OnlyOpenConnections(s, t.slots[p].key);
        assert UidKey(t.slots[p].key.bits) == t.slots[p].key;
        AgreesAt(s, t.slots[p].key.bits, c);
      } else if c in s.conns && s.conns[c].uid != NOT_LOGGED_IN {
        OnlineHasSlot(mix, t, s, c);
      }
    }
  }

  lemma AgreementNeeds(s: State, c: Ptr, uid: nat, name: Text)
    requires Agrees(s) && c in s.conns && uid > 0 && Agrees(LoggedIn(s, c, uid, name))
    ensures uid < NOT_LOGGED_IN && (s.conns[c].uid == NOT_LOGGED_IN || s.conns[c].uid == uid)
    ensures UidKey(uid) in s.active ==> s.active[UidKey(uid)] == c
  {
    var s' := LoggedIn(s, c, uid, name);
    assert IsOnlineAs(s', c, uid);
    var old_ := s.conns[c].uid;
    if old_ != NOT_LOGGED_IN && old_ != uid {
      assert IsOnlineAs(s, c, old_);
      AgreesAt(s', old_, c);
    }
    if UidKey(uid) in s.active && s.active[UidKey(uid)] != c {
      var d := s.active[UidKey(uid)];
      AgreesAt(s, uid, d);
      AgreesAt(s', uid, d);
    }
  }

  /** When the index would stay right if hashmap_put replaced an entry that is there: the uid must survive
      the 16-bit field and differ from the mark of a connection that has not logged in, the connection
      must not be logged in as someone else, and no other connection may be logged in as this user. */
  lemma ReplacingKeepsAgreementIff(s: State, c: Ptr, uid: nat, name: Text)
    requires Agrees(s) && c in s.conns && uid > 0
    ensures Agrees(LoggedIn(s, c, uid, name)) <==>
            && uid < NOT_LOGGED_IN
            && (s.conns[c].uid == NOT_LOGGED_IN || s.conns[c].uid == uid)
            && (UidKey(uid) in s.active ==> s.active[UidKey(uid)] == c)
  {
    var s' := LoggedIn(s, c, uid, name);
    if Agrees(s') {
      AgreementNeeds(s, c, uid, name);
    }
    if uid < NOT_LOGGED_IN && (s.conns[c].uid == NOT_LOGGED_IN || s.conns[c].uid == uid)
       && (UidKey(uid) in s.active ==> s.active[UidKey(uid)] == c) {
      forall u: nat, d ensures (UidKey(u) in s'.active && s'.active[UidKey(u)] == d) <==> IsOnlineAs(s', d, u) {
        assert (UidKey(u) in s.active && s.active[UidKey(u)] == d) <==> IsOnlineAs(s, d, u);
        assert (UidKey(u) in s.active && s.active[UidKey(u)] == c) <==> IsOnlineAs(s, c, u);
      }
    }
  }

  /** A put of a key that is there counts it twice, so the table stops standing for any index. */
  lemma PresentPutMiscounts(mix: Mix, t: Table, m: map<Key, Ptr>, key: Key, data: Ptr, m': map<Key, Ptr>)
    requires Represents(mix, t, m) && key in m
    ensures !Represents(mix, PutAny(mix, t, key, data), m')
  {
    var room := if t.size == |t.slots| then Rehash(mix, t) else t;
    if t.size == |t.slots| {
      RehashKeepsMap(mix, t, m);
    }
    PutCounts(mix, room, key, data);
    PutOnOwnStack(mix, room, key, data);
    assert Stack(mix, room.slots, key) == [m[key]];
    assert |Stack(mix, PutAny(mix, t, key, data).slots, key)| == if Replaces(mix, room.slots, key) then 1 else 2;
  }

  /** When a login keeps the index right and the hash map standing for it: the uid must be below 65535,
      and neither the connection nor the user may be logged in already, not even as each other. */
  lemma LoginKeepsIndexIff(mix: Mix, t: Table, s: State, c: Ptr, uid: nat, name: Text)
    requires Agrees(s) && Represents(mix, t, s.active) && c in s.conns && uid > 0
    ensures var s' := LoggedIn(s, c, uid, name);
            Agrees(s') && Represents(mix, PutAny(mix, t, UidKey(uid), c), s'.active)
            <==> uid < NOT_LOGGED_IN && s.conns[c].uid == NOT_LOGGED_IN && UidKey(uid) !in s.active
  {
    ReplacingKeepsAgreementIff(s, c, uid, name);
    if UidKey(uid) in s.active {
      PresentPutMiscounts(mix, t, s.active, UidKey(uid), c, LoggedIn(s, c, uid, name).active);
    } else {
      AgreesAt(s, uid, c);
      PutAbsentIsUpdate(mix, t, s.active, UidKey(uid), c);
    }
  }

  /** The first put of a new table lands in the key's home slot; a put of a second key with that home goes
      elsewhere. */
  lemma TwoOfOneHome(mix: Mix, n: nat, k1: Key, k2: Key, a: Ptr, b: Ptr)
    requires n >= 2 && k1 != k2 && Home(mix, k1, n) == Home(mix, k2, n)
    ensures var t1 := PutAny(mix, Table(Blanks(n), 0), k1, a);
            var t2 := PutAny(mix, t1, k2, b);
            && |t2.slots| == n && t2.size == 2 && Matches(t2.slots[Home(mix, k1, n)], k1)
            && Stack(mix, t2.slots, k2) == [b]
  {
    var t, home := Table(Blanks(n), 0), Home(mix, k1, n);
    var t1 := PutAny(mix, t, k1, a);
    assert Stops(t.slots[Pos(home, 0, n)], k1) && t1.slots[home] == Slot(true, k1, a);
    BlankStacks(mix, n, k2);
    PutSparesOthers(mix, t, k1, a, k2);
    RoomIsFound(t1.slots, home, k2);
    assert !Stops(t1.slots[Pos(home, 0, n)], k2);
    PutOnOwnStack(mix, t1, k2, b);
  }

  /** When the slot in front of it is freed, the next put of a key makes a second copy, which outlives one
      remove. */
  lemma SecondCopyOutlivesRemove(mix: Mix, t: Table, k1: Key, k2: Key, b: Ptr)
    requires Sane(t) && k1 != k2 && Home(mix, k1, |t.slots|) == Home(mix, k2, |t.slots|)
    requires Matches(t.slots[Home(mix, k1, |t.slots|)], k1) && Stack(mix, t.slots, k2) == [b]
    ensures var t3 := RemoveKey(mix, t, k1);
            Sane(t3) && Stack(mix, RemoveKey(mix, PutAny(mix, t3, k2, b), k2).slots, k2) == [b]
  {
    var n, home, t3 := |t.slots|, Home(mix, k1, |t.slots|), RemoveKey(mix, t, k1);
    RemoveKeepsSane(mix, t, k1);
    assert Matches(t.slots[Pos(home, 0, n)], k1) && t3.slots[home] == BLANK;
    RemoveOnStacks(mix, t, k1, k2);
    assert Stops(t3.slots[Pos(home, 0, n)], k2) && !Replaces(mix, t3.slots, k2);
    PutOnOwnStack(mix, t3, k2, b);
    RemoveOnStacks(mix, PutAny(mix, t3, k2, b), k2, k2);
  }

  /** More arguments than values: two arguments share a value. */
  lemma {:induction false} Pigeonhole(f: nat -> nat, m: nat, n: nat) returns (i: nat, j: nat)
    requires m > n && forall k :: 0 <= k < m ==> f(k) < n
    ensures i < j < m && f(i) == f(j)
    decreases m
  {
    var last := m - 1;
    assert f(last) < n;
    if k :| 0 <= k < last && f(k) == f(last) {
      i, j := k, last;
    } else {
      var g := (k: nat) => if f(k) == n - 1 then f(last) else f(k);
      forall k | 0 <= k < last ensures g(k) < n - 1 {
        assert f(k) < n;
      }
      i, j := Pigeonhole(g, last, n - 1);
    }
  }

  /** Whatever the hash, two of the first 1025 accounts have uids that share a home slot of the new map. */
  lemma TwoUidsShareHome(mix: Mix) returns (i: nat, j: nat)
    ensures i < j <= INITIAL_SIZE
    ensures Home(mix, UidKey(i + 1), INITIAL_SIZE) == Home(mix, UidKey(j + 1), INITIAL_SIZE)
  {
    var f := (k: nat) => Home(mix, UidKey(k + 1), INITIAL_SIZE);
    i, j := Pigeonhole(f, INITIAL_SIZE + 1, INITIAL_SIZE);
  }

  lemma FiveOps(mix: Mix, t: Table, a: Op, b: Op, c: Op, d: Op, e: Op)
    requires Sane(t)
    ensures PerformAll(mix, t, [a, b, c, d, e])
         == Perform(mix, Perform(mix, Perform(mix, Perform(mix, Perform(mix, t, a), b), c), d), e)
  {
    assert [a, b, c, d, e][1..] == [b, c, d, e] && [b, c, d, e][1..] == [c, d, e];
    assert [c, d, e][1..] == [d, e] && [d, e][1..] == [e] && [e][1..] == [];
    var t2 := Perform(mix, Perform(mix, t, a), b);
    assert PerformAll(mix, t, [a, b, c, d, e]) == PerformAll(mix, t2, [c, d, e]);
    var t4 := Perform(mix, Perform(mix, t2, c), d);
    assert PerformAll(mix, t2, [c, d, e]) == PerformAll(mix, t4, [e]);
  }

  /** Two keys of one home in the new map: the second is put again after the first is removed, and survives
      its own removal. */
  lemma RepeatedPutOutlivesRemove(mix: Mix, k1: Key, k2: Key, a: Ptr, b: Ptr)
    requires k1 != k2 && Home(mix, k1, INITIAL_SIZE) == Home(mix, k2, INITIAL_SIZE)
    ensures Sane(NEW_TABLE)
    ensures var ops := [Put(k1, a), Put(k2, b), Remove(k1), Put(k2, b), Remove(k2)];
            Found(mix, PerformAll(mix, NEW_TABLE, ops).slots, k2) == Some(b)
  {
    var t2 := PutAny(mix, PutAny(mix, NEW_TABLE, k1, a), k2, b);
    TwoOfOneHome(mix, INITIAL_SIZE, k1, k2, a, b);
    SecondCopyOutlivesRemove(mix, t2, k1, k2, b);
    FiveOps(mix, NEW_TABLE, Put(k1, a), Put(k2, b), Remove(k1), Put(k2, b), Remove(k2));
  }

  /** A disconnect always keeps it right, also for a connection that never logged in. */
  lemma DisconnectKeepsAgreement(s: State, c: Ptr)
    requires Agrees(s) && c in s.conns
    ensures Agrees(HandleDisconnect(s, c))
  {
    var s', uid := HandleDisconnect(s, c), s.conns[c].uid;
    forall u: nat, d ensures (UidKey(u) in s'.active && s'.active[UidKey(u)] == d) <==> IsOnlineAs(s', d, u) {
      assert (UidKey(u) in s.active && s.active[UidKey(u)] == d) <==> IsOnlineAs(s, d, u);
      assert (UidKey(uid) in s.active && s.active[UidKey(uid)] == c) <==> IsOnlineAs(s, c, uid);
      assert (UidKey(uid) in s.active && s.active[UidKey(uid)] == d) <==> IsOnlineAs(s, d, uid);
    }
  }

  lemma AcceptKeepsAgreement(s: State, c: Ptr)
    requires Shaped(s) && Agrees(s) && Enabled(s, Accept(c))
    ensures Agrees(Apply(s, Accept(c)))
  {
    var s' := Apply(s, Accept(c));
    forall u: nat, d ensures (UidKey(u) in s'.active && s'.active[UidKey(u)] == d) <==> IsOnlineAs(s', d, u) {
      assert (UidKey(u) in s.active && s.active[UidKey(u)] == d) <==> IsOnlineAs(s, d, u);
    }
  }

  /** The account file of a run, and the fact that login uids are line numbers. */
  ghost predicate Booked(s: State, accounts: seq<Account>) {
    Stores(s.lines, accounts) && |s.lines| < NOT_LOGGED_IN
  }

  lemma LoginUidIsSmall(s: State, accounts: seq<Account>, name: Text, password: Text)
    requires Booked(s, accounts)
    ensures MatchUserPw(Rows(s.lines), name, password) < NOT_LOGGED_IN
  {
    StoredRows(s.lines, accounts);
  }

  /** The operations on the hash map that a login and a disconnect cause. */
  function LoginOps(s: State, c: Ptr, a: Account): seq<Op> {
    var status := MatchUserPw(Rows(s.lines), a.name, a.password);
    if status > 0 then [Put(UidKey(status), c)] else []
  }

  function HangupOps(s: State, c: Ptr): seq<Op>
    requires c in s.conns
  {
    if s.conns[c].uid > 0 then [Remove(UidKey(s.conns[c].uid))] else []
  }

  /** The operations on the hash map that one event causes. */
  ghost function MapOps(s: State, e: Event): seq<Op>
    requires Enabled(s, e)
  {
    match e
    case Accept(_) => []
    case Receive(c, p, _) =>
      if p.cmd == USR_LOGIN then LoginOps(s, c, CredentialsIn(p.payload).value) else []
    case Disconnect(c) => HangupOps(s, c)
  }

  lemma OneOp(m: map<Key, Ptr>, op: Op)
    requires op.Put? ==> op.key !in m
    ensures PutsAbsentKeys(m, [op]) && OnMapAll(m, [op]) == OnMap(m, op)
  {
    assert [op][1..] == [];
  }

  /** A step changes the index exactly by these operations, and puts only a key that is absent. */
  lemma StepIsMapOps(s: State, e: Event)
    requires Shaped(s) && Enabled(s, e)
    ensures PutsAbsentKeys(s.active, MapOps(s, e))
    ensures Apply(s, e).active == OnMapAll(s.active, MapOps(s, e))
  {
    var ops := MapOps(s, e);
    if ops != [] {
      OneOp(s.active, ops[0]);
    } else if e.Receive? && e.p.cmd != USR_LOGIN {
      assert SameIndex(s, HandlePacket(s, e.c, e.p, e.extra));
    }
  }

  lemma StepKeepsAccounts(s: State, e: Event, accounts: seq<Account>) returns (accounts': seq<Account>)
    requires Shaped(s) && Enabled(s, e) && Booked(s, accounts)
    ensures Booked(Apply(s, e), accounts') && accounts <= accounts'
  {
    accounts' := accounts;
    if e.Receive? && e.p.cmd == USR_CREATE {
      var a := CredentialsIn(e.p.payload).value;
      CreationStores(s.lines, accounts, a);
      if CreateUser(s.lines, a).0 > 0 {
        accounts' := accounts + [a];
      }
    } else if e.Receive? {
      assert SameLines(s, HandlePacket(s, e.c, e.p, e.extra));
    }
  }

  lemma SameIndexAgrees(s: State, s': State)
    requires Agrees(s) && SameIndex(s, s')
    ensures Agrees(s')
  {
    forall u: nat, c ensures (UidKey(u) in s'.active && s'.active[UidKey(u)] == c) <==> IsOnlineAs(s', c, u) {
      assert (UidKey(u) in s.active && s.active[UidKey(u)] == c) <==> IsOnlineAs(s, c, u);
    }
  }

  lemma LoginStep(s: State, e: Event, accounts: seq<Account>)
    requires Shaped(s) && Enabled(s, e) && Booked(s, accounts) && Agrees(s) && e.Receive? && e.p.cmd == USR_LOGIN
    ensures Agrees(Apply(s, e))
  {
    var a := CredentialsIn(e.p.payload).value;
    var status := MatchUserPw(Rows(s.lines), a.name, a.password);
    if status > 0 {
      LoginUidIsSmall(s, accounts, a.name, a.password);
      ReplacingKeepsAgreementIff(s, e.c, status, a.name);
      SameIndexAgrees(LoggedIn(s, e.c, status, a.name), Apply(s, e));
    } else {
      SameIndexAgrees(s, Apply(s, e));
    }
  }

  lemma StepKeepsAgreement(s: State, e: Event, accounts: seq<Account>)
    requires Shaped(s) && Enabled(s, e) && Booked(s, accounts) && Agrees(s)
    ensures Agrees(Apply(s, e))
  {
    match e
    case Accept(c) => AcceptKeepsAgreement(s, c);
    case Disconnect(c) => DisconnectKeepsAgreement(s, c);
    case Receive(c, p, extra) =>
      if p.cmd == USR_LOGIN {
        LoginStep(s, e, accounts);
      } else {
        SameIndexAgrees(s, HandlePacket(s, c, p, extra));
      }
  }

  /** What every step of the server keeps. */
  ghost predicate WellKept(s: State) {
    Shaped(s) && Agrees(s) && StoredNames(s.files)
  }

  lemma StepKeepsWell(s: State, e: Event, accounts: seq<Account>)
    requires WellKept(s) && Enabled(s, e) && Booked(s, accounts)
    ensures WellKept(Apply(s, e))
  {
    StepKeepsGroups(s, e);
    StepKeepsAgreement(s, e, accounts);
    StepKeepsStoredNames(s, e);
  }

  ghost function RunMapOps(s: State, events: seq<Event>): seq<Op>
    requires Shaped(s) && LegalRun(s, events)
    decreases |events|
  {
    if events == [] then []
    else
      StepKeepsGroups(s, events[0]);
      MapOps(s, events[0]) + RunMapOps(Apply(s, events[0]), events[1..])
  }

  lemma {:induction false} OpsAppend(m: map<Key, Ptr>, a: seq<Op>, b: seq<Op>)
    requires PutsAbsentKeys(m, a) && PutsAbsentKeys(OnMapAll(m, a), b)
    ensures PutsAbsentKeys(m, a + b) && OnMapAll(m, a + b) == OnMapAll(OnMapAll(m, a), b)
    decreases |a|
  {
    if a == [] {
      assert a + b == b;
    } else {
      assert (a + b)[1..] == a[1..] + b;
      OpsAppend(OnMap(m, a[0]), a[1..], b);
    }
  }

  /** Over every run in which a connection logs in at most once and no user from two connections: the
      index is right at the end, the accounts only grow, and the hash map operations of the run put
      only absent keys. */
  lemma {:induction false} IndexOverRuns(s: State, events: seq<Event>, accounts: seq<Account>)
      returns (accounts': seq<Account>)
    requires Shaped(s) && LegalRun(s, events) && Booked(s, accounts) && Agrees(s)
    ensures var s' := Run(s, events); Agrees(s') && Booked(s', accounts') && accounts <= accounts'
    ensures PutsAbsentKeys(s.active, RunMapOps(s, events))
    ensures Run(s, events).active == OnMapAll(s.active, RunMapOps(s, events))
    decreases |events|
  {
    accounts' := accounts;
    if events != [] {
      var s1 := Apply(s, events[0]);
      StepKeepsGroups(s, events[0]);
      StepKeepsAgreement(s, events[0], accounts);
      var accounts1 := StepKeepsAccounts(s, events[0], accounts);
      accounts' := IndexOverRuns(s1, events[1..], accounts1);
      StepIsMapOps(s, events[0]);
      OpsAppend(s.active, MapOps(s, events[0]), RunMapOps(s1, events[1..]));
    }
  }

  /** So the open-addressing table, starting empty and driven by the server's puts and removes through
      any number of rehashes, answers every lookup of the server as the index does. */
  lemma TableServesIndex(mix: Mix, t: Table, s: State, events: seq<Event>, accounts: seq<Account>)
    requires Shaped(s) && LegalRun(s, events) && Booked(s, accounts) && Agrees(s)
    requires Represents(mix, t, s.active)
    ensures Represents(mix, PerformAll(mix, t, RunMapOps(s, events)), Run(s, events).active)
  {
    var accounts' := IndexOverRuns(s, events, accounts);
    HistoryIsMap(mix, t, s.active, RunMapOps(s, events));
  }
}
