/** What connections receive: chat messages, and files that were uploaded before. */
module Delivery {
  import opened Basics
  import opened Wire
  import opened TextFiles
  import opened Accounts
  import opened FileNames
  import opened Tokenizer
  import opened HashTable
  import opened ServerSpec
  import opened OnlineIndex
  import opened HashMaps
  import Sockets

  /** The messages of a log that went to one connection, in order. */
  function To(log: seq<Sent>, c: Ptr): seq<Message> {
    if log == [] then []
    else To(log[..|log| - 1], c) + if log[|log| - 1].to == c then [log[|log| - 1].m] else []
  }

  lemma {:induction false} ToConcat(a: seq<Sent>, b: seq<Sent>, c: Ptr)
    ensures To(a + b, c) == To(a, c) + To(b, c)
  {
    if b == [] {
      assert a + b == a;
    } else {
      var n := |b| - 1;
      assert (a + b)[..|a + b| - 1] == a + b[..n];
      ToConcat(a, b[..n], c);
    }
  }

  /** No step takes back or changes what was sent. */
  lemma StepKeepsSent(s: State, e: Event)
    requires Shaped(s) && Enabled(s, e)
    ensures s.sent <= Apply(s, e).sent
  {
  }

  lemma {:induction false} RunKeepsSent(s: State, events: seq<Event>)
    requires Shaped(s) && LegalRun(s, events)
    ensures s.sent <= Run(s, events).sent
    decreases |events|
  {
    if events != [] {
      StepKeepsGroups(s, events[0]);
      StepKeepsSent(s, events[0]);
      RunKeepsSent(Apply(s, events[0]), events[1..]);
    }
  }

  /** A connection that is open and logged in as a member. */
  ghost predicate OnlineMember(s: State, gid: nat, c: Ptr)
    requires gid < |s.groups|
  {
    c in s.conns && s.conns[c].uid != NOT_LOGGED_IN && s.conns[c].uid in s.groups[gid]
  }

  lemma ToOne(active: map<Key, Ptr>, key: Key, m: Message, c: Ptr)
    ensures To(if key in active then [Sent(active[key], m)] else [], c)
         == if key in active && active[key] == c then [m] else []
  {
    if key in active {
      assert [Sent(active[key], m)][..0] == [];
    }
  }

  /** The walk's last step. */
  lemma LastForward(s: State, members: seq<Uint16>, m: Message, c: Ptr)
    requires members != []
    ensures var n := |members| - 1;
            var key := UidKey(members[n]);
            To(Forwarded(s.active, members, m), c)
            == To(Forwarded(s.active, members[..n], m), c) + if key in s.active && s.active[key] == c then [m] else []
  {
    var n := |members| - 1;
    var key := UidKey(members[n]);
    ToConcat(Forwarded(s.active, members[..n], m), if key in s.active then [Sent(s.active[key], m)] else [], c);
    ToOne(s.active, key, m, c);
  }

  /** A member is the last one or among the others, not both. */
  lemma LastMember(members: seq<Uint16>, uid: Uint16)
    requires members != [] && NoDuplicates(members)
    ensures var n := |members| - 1;
            && NoDuplicates(members[..n])
            && (uid in members <==> uid in members[..n] || uid == members[n])
            && (uid == members[n] ==> uid !in members[..n])
  {
    var n := |members| - 1;
    assert members == members[..n] + [members[n]];
    assert forall i :: 0 <= i < n ==> members[i] != members[n];
  }

  /** Walking members once each, with an index that is right, writes once to each online one. */
  lemma {:induction false} ForwardedTo(s: State, members: seq<Uint16>, m: Message, c: Ptr)
    requires Agrees(s) && NoDuplicates(members)
    ensures To(Forwarded(s.active, members, m), c)
         == if c in s.conns && s.conns[c].uid != NOT_LOGGED_IN && s.conns[c].uid in members then [m] else []
  {
    if members != [] {
      var n := |members| - 1;
      ForwardedTo(s, members[..n], m, c);
      LastForward(s, members, m, c);
      AgreesAt(s, members[n], c);
      if c in s.conns {
        LastMember(members, s.conns[c].uid);
      }
    }
  }

  /** Every write of a forward is this message, to an open connection of a member. */
  lemma {:induction false} ForwardedToOpen(s: State, members: seq<Uint16>, m: Message)
    requires Agrees(s)
    ensures forall x :: x in Forwarded(s.active, members, m) ==>
      x.m == m && x.to in s.conns && s.conns[x.to].uid in members
  {
    if members != [] {
      var n := |members| - 1;
      ForwardedToOpen(s, members[..n], m);
      if UidKey(members[n]) in s.active {
        OnlyOpenConnections(s, UidKey(members[n]));
      }
    }
  }

  /** The writes follow the membership order: wherever the member list is cut, all writes to the members
      before the cut come before those to the members after it. */
  lemma {:induction false} ForwardedInOrder(active: map<Key, Ptr>, front: seq<Uint16>, back: seq<Uint16>, m: Message)
    ensures Forwarded(active, front + back, m) == Forwarded(active, front, m) + Forwarded(active, back, m)
  {
    if back == [] {
      assert front + back == front;
    } else {
      var n := |back| - 1;
      assert (front + back)[..|front + back| - 1] == front + back[..n];
      ForwardedInOrder(active, front, back[..n], m);
    }
  }

  /** An accepted SEND_CHAT adds exactly one packet to the output of every online member of the group,
      the sender included if online, and nothing to any other connection; all get the same bytes,
      "name:message". A rejected one writes nothing. */
  lemma ChatReachesOnlineMembers(s: State, p: Packet, c: Ptr)
    requires Shaped(s) && Agrees(s) && p.gid < GROUP_NUM_MAX
    ensures var s', sender := HandleChat(s, p), ChatSender(s, p);
            if sender.Some? && OnlineMember(s, p.gid, c)
            then To(s'.sent, c) == To(s.sent, c) + [Plain(Packet(SEND_CHAT, p.gid, p.uid, sender.value + [58] + p.payload))]
            else To(s'.sent, c) == To(s.sent, c)
  {
    if ChatSender(s, p).Some? {
      var m := Plain(ChatPacket(p, ChatSender(s, p).value));
      ForwardedTo(s, s.groups[p.gid], m, c);
      ToConcat(s.sent, Forwarded(s.active, s.groups[p.gid], m), c);
    }
  }

  lemma StoredUsername(s: State, accounts: seq<Account>, i: nat)
    requires Booked(s, accounts) && i < |accounts|
    ensures FindUsername(Rows(s.lines), i + 1) == Some(accounts[i].name) && accounts[i].name != []
  {
    StoredRows(s.lines, accounts);
    ListedAccountIsFound(Rows(s.lines), accounts, i);
    assert Legal(accounts[i]);
  }

  lemma ChatSenderIs(s: State, p: Packet, name: Text)
    requires p.gid < |s.groups| && p.uid > 0 && name != [] && FindUsername(Rows(s.lines), p.uid) == Some(name)
    ensures ChatSender(s, p) == if p.uid in s.groups[p.gid] then Some(name) else None
  {
  }

  /** A chat is accepted exactly from registered members of the group, under the registered name. */
  lemma ChatAcceptedIff(s: State, p: Packet, accounts: seq<Account>, i: int)
    requires Booked(s, accounts) && p.gid < |s.groups| && p.uid == i + 1
    ensures ChatSender(s, p)
         == if p.uid in s.groups[p.gid] && 0 <= i < |accounts| then Some(accounts[i].name) else None
  {
    if 0 <= i < |accounts| {
      StoredUsername(s, accounts, i);
      ChatSenderIs(s, p, accounts[i].name);
    } else {
      UnknownUidHasNoName(s.lines, accounts, p.uid);
    }
  }

  lemma StoredUid(s: State, accounts: seq<Account>, i: nat)
    requires Booked(s, accounts) && i < |accounts|
    ensures FindUid(Rows(s.lines), accounts[i].name) == i + 1
  {
    StoredRows(s.lines, accounts);
    ListedAccountIsFound(Rows(s.lines), accounts, i);
  }

  lemma InviteReachesUid(s: State, p: Packet, uid: nat, c: Ptr)
    requires Shaped(s) && Agrees(s) && p.gid < GROUP_NUM_MAX && uid > 0
    requires FindUid(Rows(s.lines), PayloadText(p.payload)) == uid
    ensures To(HandleInvite(s, p).sent, c)
         == To(s.sent, c) + if p.uid > 0 && |p.payload| <= 7 && p.uid in s.groups[p.gid] && IsOnlineAs(s, c, uid)
                            then [Plain(Packet(INVITE, p.gid, p.uid, []))] else []
  {
    AgreesAt(s, uid, c);
    var m := Plain(Packet(INVITE, p.gid, p.uid, []));
    ToOne(s.active, UidKey(uid), m, c);
    if UidKey(uid) in s.active {
      ToConcat(s.sent, [Sent(s.active[UidKey(uid)], m)], c);
    }
  }

  /** An invitation by a member goes to the connection logged in as the named user, and to no other; one
      by anybody else goes nowhere. */
  lemma InviteReachesNamedUser(s: State, p: Packet, accounts: seq<Account>, i: nat, c: Ptr)
    requires Shaped(s) && Agrees(s) && Booked(s, accounts) && p.gid < GROUP_NUM_MAX && i < |accounts|
    requires PayloadText(p.payload) == accounts[i].name
    ensures To(HandleInvite(s, p).sent, c)
         == To(s.sent, c) + if p.uid > 0 && |p.payload| <= 7 && p.uid in s.groups[p.gid] && IsOnlineAs(s, c, i + 1)
                            then [Plain(Packet(INVITE, p.gid, p.uid, []))] else []
  {
    StoredUid(s, accounts, i);
    InviteReachesUid(s, p, i + 1, c);
  }

  /** An invitation under a name that no stored name begins goes nowhere. */
  lemma InviteOfUnknownGoesNowhere(s: State, p: Packet, accounts: seq<Account>)
    requires Booked(s, accounts) && p.gid < |s.groups|
    requires forall i :: 0 <= i < |accounts| ==> !(accounts[i].name <= PayloadText(p.payload))
    ensures HandleInvite(s, p) == s
  {
    UnknownNameIsMissing(s.lines, accounts, PayloadText(p.payload));
  }

  // ---------------------------------------------------------------------------------------------
  // Accounts
  // ---------------------------------------------------------------------------------------------

  lemma AnswerOf(s: State, c: Ptr, a: Account, status: int, lines: seq<Text>)
    requires CreateUser(s.lines, a) == (status, lines)
    ensures HandleCreate(s, c, a).lines == lines
    ensures HandleCreate(s, c, a).sent == s.sent + [Sent(c, Plain(CreateReply(status, lines, a)))]
  {
  }

  /** USR_CREATE under a name that no stored name begins is answered with the number of the new line. */
  lemma CreateAccepted(s: State, accounts: seq<Account>, c: Ptr, a: Account)
    requires Booked(s, accounts) && Legal(a) && |accounts| + 1 < NOT_LOGGED_IN
    requires forall i :: 0 <= i < |accounts| ==> !(accounts[i].name <= a.name)
    ensures var s' := HandleCreate(s, c, a);
            && Booked(s', accounts + [a])
            && s'.sent == s.sent + [Sent(c, Plain(Packet(USR_CREATE, 0, |accounts| + 1, [0])))]
  {
    CreationOfNew(s.lines, accounts, a);
    var lines := s.lines + [FormatLine(|s.lines| + 1, a)];
    AnswerOf(s, c, a, |accounts| + 1, lines);
    assert CreateReply(|accounts| + 1, lines, a) == Packet(USR_CREATE, 0, |accounts| + 1, [0]);
  }

  /** Any other is answered with uid 0 and -11 as a byte, and stores nothing. */
  lemma CreateRefused(s: State, accounts: seq<Account>, c: Ptr, a: Account, i: nat)
    requires Booked(s, accounts) && Legal(a) && i < |accounts| && accounts[i].name <= a.name
    ensures var s' := HandleCreate(s, c, a);
            s'.lines == s.lines && s'.sent == s.sent + [Sent(c, Plain(Packet(USR_CREATE, 0, 0, [245])))]
  {
    CreationOfTaken(s.lines, accounts, a, i);
    AnswerOf(s, c, a, ERR_USERNAME_EXIST, s.lines);
    assert ToByte(ERR_USERNAME_EXIST) == 245;
  }

  /** USR_LOGIN marks the connection with this uid and the name given, enters it into the index and answers
      with the uid. */
  ghost predicate LoginYields(s: State, c: Ptr, a: Account, uid: Uint16) {
    HandleLogin(s, c, a)
    == s.(conns := s.conns[c := Connection(uid, a.name)], active := s.active[Key(uid) := c],
          sent := s.sent + [Sent(c, Plain(Packet(USR_LOGIN, 0, uid, [0])))])
  }

  lemma LoginAnswer(s: State, c: Ptr, a: Account, uid: nat)
    requires MatchUserPw(Rows(s.lines), a.name, a.password) == uid && 0 < uid <= NOT_LOGGED_IN
    ensures LoginYields(s, c, a, uid)
  {
  }

  lemma LoginOfStored(s: State, accounts: seq<Account>, i: nat, c: Ptr)
    requires Booked(s, accounts) && i < |accounts|
    ensures LoginYields(s, c, accounts[i], i + 1)
  {
    StoredLogin(s.lines, accounts, i);
    LoginAnswer(s, c, accounts[i], i + 1);
  }

  lemma StoredLoginYields(s: State, accounts: seq<Account>, i: nat, c: Ptr)
    requires Booked(s, accounts) && i < |accounts|
    ensures LoginYields(s, c, accounts[i], i + 1)
    ensures LoginOps(s, c, accounts[i]) == [Put(UidKey(i + 1), c)]
  {
    StoredLogin(s.lines, accounts, i);
    LoginAnswer(s, c, accounts[i], i + 1);
  }

  lemma LoginIndex(mix: Mix, t: Table, s: State, c: Ptr, a: Account, uid: Uint16)
    requires Sane(t) && LoginYields(s, c, a, uid) && LoginOps(s, c, a) == [Put(UidKey(uid), c)]
    ensures PerformAll(mix, t, LoginOps(s, c, a)) == PutAny(mix, t, UidKey(uid), c)
    ensures HandleLogin(s, c, a).active == LoggedIn(s, c, uid, a.name).active
    ensures Agrees(HandleLogin(s, c, a)) <==> Agrees(LoggedIn(s, c, uid, a.name))
  {
    assert [Put(UidKey(uid), c)][1..] == [];
    var s1, s2 := LoggedIn(s, c, uid, a.name), HandleLogin(s, c, a);
    if Agrees(s1) {
      SameIndexAgrees(s1, s2);
    }
    if Agrees(s2) {
      SameIndexAgrees(s2, s1);
    }
  }

  /** Whatever happens after a successful USR_CREATE, a login with the same name and password stores and
      answers the uid that the creation announced; the index stays right and the hash map goes on standing
      for it if and only if neither the connection nor the user is logged in. */
  lemma CreateThenLogin(s: State, accounts: seq<Account>, c: Ptr, a: Account, events: seq<Event>, c': Ptr,
                        mix: Mix, t: Table)
    requires Shaped(s) && Agrees(s) && Booked(s, accounts) && Legal(a) && |accounts| + 1 < NOT_LOGGED_IN
    requires forall i :: 0 <= i < |accounts| ==> !(accounts[i].name <= a.name)
    requires Shaped(HandleCreate(s, c, a)) && LegalRun(HandleCreate(s, c, a), events)
    requires var s' := Run(HandleCreate(s, c, a), events); c' in s'.conns && Represents(mix, t, s'.active)
    ensures var s' := Run(HandleCreate(s, c, a), events);
            var uid := |accounts| + 1;
            && LoginYields(s', c', a, uid)
            && (Agrees(HandleLogin(s', c', a))
                && Represents(mix, PerformAll(mix, t, LoginOps(s', c', a)), HandleLogin(s', c', a).active)
                <==> s'.conns[c'].uid == NOT_LOGGED_IN && UidKey(uid) !in s'.active)
  {
    CreateAccepted(s, accounts, c, a);
    SameIndexAgrees(s, HandleCreate(s, c, a));
    var s' := Run(HandleCreate(s, c, a), events);
    var accounts' := IndexOverRuns(HandleCreate(s, c, a), events, accounts + [a]);
    StoredLoginYields(s', accounts', |accounts|, c');
    LoginKeepsIndexIff(mix, t, s', c', |accounts| + 1, a.name);
    LoginIndex(mix, t, s', c', a, |accounts| + 1);
  }

  /** A stored user's login through the handler. */
  lemma StoredLoginStep(s: State, accounts: seq<Account>, i: nat, c: Ptr)
    requires Booked(s, accounts) && i < |accounts|
    ensures var s' := HandleLogin(s, c, accounts[i]);
            && Booked(s', accounts) && s'.conns == s.conns[c := Connection(i + 1, accounts[i].name)]
            && s'.active == s.active[UidKey(i + 1) := c] && LoginOps(s, c, accounts[i]) == [Put(UidKey(i + 1), c)]
  {
    StoredLoginYields(s, accounts, i, c);
  }

  lemma HangupStep(s: State, c: Ptr, uid: Uint16)
    requires c in s.conns && s.conns[c].uid == uid > 0
    ensures HangupOps(s, c) == [Remove(UidKey(uid))]
    ensures HandleDisconnect(s, c).active == s.active - {UidKey(uid)} && HandleDisconnect(s, c).conns == s.conns - {c}
    ensures HandleDisconnect(s, c).lines == s.lines
  {
  }

  lemma SecondRemains(k1: Key, k2: Key, a: Ptr, b: Ptr)
    requires k1 != k2
    ensures map[][k1 := a][k2 := b] - {k1} == map[k2 := b]
  {
  }

  /** Two logins and the first user's hang-up, through the handlers: the state and the hash map's calls. */
  lemma TwoLoginsOneHangup(s: State, accounts: seq<Account>, i: nat, j: nat, a: Ptr, b: Ptr)
    requires Booked(s, accounts) && i < |accounts| && j < |accounts| && i != j
    requires s.active == map[] && a in s.conns && b in s.conns && a != b
    ensures var s2 := HandleLogin(HandleLogin(s, a, accounts[i]), b, accounts[j]);
            && a in s2.conns && s2.conns[a].uid == i + 1
            && var s3 := HandleDisconnect(s2, a);
               s3.lines == s.lines && b in s3.conns && s3.active == map[UidKey(j + 1) := b]
  {
    var s1 := HandleLogin(s, a, accounts[i]);
    StoredLoginStep(s, accounts, i, a);
    StoredLoginStep(s1, accounts, j, b);
    HangupStep(HandleLogin(s1, b, accounts[j]), a, i + 1);
    SecondRemains(UidKey(i + 1), UidKey(j + 1), a, b);
  }

  lemma TwoLoginsOneHangupOps(s: State, accounts: seq<Account>, i: nat, j: nat, a: Ptr, b: Ptr)
    requires Booked(s, accounts) && i < |accounts| && j < |accounts|
    requires var s2 := HandleLogin(HandleLogin(s, a, accounts[i]), b, accounts[j]);
             a in s2.conns && s2.conns[a].uid == i + 1
    ensures var s1 := HandleLogin(s, a, accounts[i]);
            && LoginOps(s, a, accounts[i]) == [Put(UidKey(i + 1), a)]
            && LoginOps(s1, b, accounts[j]) == [Put(UidKey(j + 1), b)]
            && HangupOps(HandleLogin(s1, b, accounts[j]), a) == [Remove(UidKey(i + 1))]
  {
    var s1 := HandleLogin(s, a, accounts[i]);
    StoredLoginStep(s, accounts, i, a);
    StoredLoginStep(s1, accounts, j, b);
    HangupStep(HandleLogin(s1, b, accounts[j]), a, i + 1);
  }

  /** The second user's repeated login and hang-up. */
  lemma RelogAndHangup(s: State, accounts: seq<Account>, j: nat, b: Ptr)
    requires Booked(s, accounts) && j < |accounts| && b in s.conns && s.active == map[UidKey(j + 1) := b]
    ensures var s1 := HandleLogin(s, b, accounts[j]);
            && b in s1.conns
            && LoginOps(s, b, accounts[j]) == [Put(UidKey(j + 1), b)] && HangupOps(s1, b) == [Remove(UidKey(j + 1))]
            && b !in HandleDisconnect(s1, b).conns && HandleDisconnect(s1, b).active == map[]
  {
    StoredLoginStep(s, accounts, j, b);
    HangupStep(HandleLogin(s, b, accounts[j]), b, j + 1);
  }

  lemma FiveInARow(a: Op, b: Op, c: Op, d: Op, e: Op)
    ensures [a] + [b] + [c] + [d] + [e] == [a, b, c, d, e]
  {
  }

  /** A run that goes wrong under every hash, in a server with more accounts than slots: there are two users
      such that, when they log in from connections `a` and `b`, the first hangs up, and the second logs in
      again and hangs up, `b` is closed and the index as a map is empty, but the hash map still finds `b`
      under the second user's uid. */
  lemma RepeatedLoginLeavesClosedConnection(mix: Mix, s: State, accounts: seq<Account>, a: Ptr, b: Ptr)
    returns (i: nat, j: nat)
    requires Booked(s, accounts) && |accounts| > INITIAL_SIZE
    requires s.active == map[] && a in s.conns && b in s.conns && a != b
    ensures i < j < |accounts| && Sane(NEW_TABLE)
    ensures var s1 := HandleLogin(s, a, accounts[i]);
            var s2 := HandleLogin(s1, b, accounts[j]);
            && a in s2.conns
            && var s3 := HandleDisconnect(s2, a);
               var s4 := HandleLogin(s3, b, accounts[j]);
               && b in s4.conns
               && var s5 := HandleDisconnect(s4, b);
                  var ops := LoginOps(s, a, accounts[i]) + LoginOps(s1, b, accounts[j]) + HangupOps(s2, a)
                             + LoginOps(s3, b, accounts[j]) + HangupOps(s4, b);
                  && b !in s5.conns && s5.active == map[]
                  && Found(mix, PerformAll(mix, NEW_TABLE, ops).slots, UidKey(j + 1)) == Some(b)
  {
    i, j := TwoUidsShareHome(mix);
    TwoLoginsOneHangup(s, accounts, i, j, a, b);
    TwoLoginsOneHangupOps(s, accounts, i, j, a, b);
    var s2 := HandleLogin(HandleLogin(s, a, accounts[i]), b, accounts[j]);
    RelogAndHangup(HandleDisconnect(s2, a), accounts, j, b);
    RepeatedPutOutlivesRemove(mix, UidKey(i + 1), UidKey(j + 1), a, b);
    var k1, k2 := UidKey(i + 1), UidKey(j + 1);
    FiveInARow(Put(k1, a), Put(k2, b), Remove(k1), Put(k2, b), Remove(k2));
  }

  lemma AnswersDiffer(sent: seq<Sent>, c: Ptr, uid: Uint16)
    ensures sent + [Sent(c, Plain(Packet(USR_LOGIN, 0, uid, [0])))] != sent + [Sent(c, Plain(Packet(USR_LOGIN, 0, 0, [246])))]
  {
    assert (sent + [Sent(c, Plain(Packet(USR_LOGIN, 0, uid, [0])))])[|sent|].m.packet.payload[0] == 0;
    assert (sent + [Sent(c, Plain(Packet(USR_LOGIN, 0, 0, [246])))])[|sent|].m.packet.payload[0] == 246;
  }

  lemma RefusalOf(s: State, c: Ptr, a: Account)
    requires MatchUserPw(Rows(s.lines), a.name, a.password) <= 0
    ensures HandleLogin(s, c, a) == s.(sent := s.sent + [Sent(c, Plain(Packet(USR_LOGIN, 0, 0, [246])))])
  {
    assert ToByte(ERR_GENERIC) == 246;
  }

  /** A login with credentials that no account's name and password begin is refused: uid 0 and -10 as a byte
      are answered, and neither the connections nor the index change. Any other is let in as a stored
      account. */
  lemma LoginRefusedIff(s: State, accounts: seq<Account>, c: Ptr, a: Account)
    requires Booked(s, accounts)
    ensures (forall i :: 0 <= i < |accounts| ==> !(accounts[i].name <= a.name && accounts[i].password <= a.password))
       <==> HandleLogin(s, c, a) == s.(sent := s.sent + [Sent(c, Plain(Packet(USR_LOGIN, 0, 0, [246])))])
    ensures !(HandleLogin(s, c, a) == s.(sent := s.sent + [Sent(c, Plain(Packet(USR_LOGIN, 0, 0, [246])))]))
       ==> exists uid :: 1 <= uid <= |accounts| && LoginYields(s, c, a, uid)
  {
    LoginAcceptedIff(s.lines, accounts, a.name, a.password);
    var status := MatchUserPw(Rows(s.lines), a.name, a.password);
    if status > 0 {
      LoginAnswer(s, c, a, status);
      AnswersDiffer(s.sent, c, status);
    } else {
      RefusalOf(s, c, a);
    }
  }

  // ---------------------------------------------------------------------------------------------
  // Uploads and downloads
  // ---------------------------------------------------------------------------------------------

  /** The upload with this number is stored with this content. */
  ghost predicate Stored(s: State, gid: nat, number: nat, body: seq<Byte>) {
    && number < s.fileCnt && |UploadName(gid, number)| + 2 < FILENAME_SIZE
    && FileName(UploadName(gid, number)) in s.files && s.files[FileName(UploadName(gid, number))] == body
  }

  /** No step overwrites an upload: later ones get other numbers, hence other names. */
  lemma StepKeepsUpload(s: State, e: Event, gid: nat, number: nat, body: seq<Byte>)
    requires Shaped(s) && Enabled(s, e) && Stored(s, gid, number, body)
    ensures Stored(Apply(s, e), gid, number, body)
  {
    if e.Receive? && e.p.cmd == SEND_FILE {
      if UploadName(gid, number) == UploadName(e.p.gid, s.fileCnt) {
        NumbersMakeNamesDistinct(gid, number, e.p.gid, s.fileCnt);
      }
    } else if e.Receive? {
      assert SameFiles(s, HandlePacket(s, e.c, e.p, e.extra));
    }
  }

  lemma NoticeReaches(s: State, p: Packet, body: seq<Byte>, m: Packet, c: Ptr)
    requires Shaped(s) && Agrees(s) && p.gid < GROUP_NUM_MAX && m == Notice(p, s.lines, UploadName(p.gid, s.fileCnt))
    ensures To(HandleSendFile(s, p, body).sent, c)
         == To(s.sent, c) + if OnlineMember(s, p.gid, c) then [Plain(m)] else []
  {
    ForwardedTo(s, s.groups[p.gid], Plain(m), c);
    ToConcat(s.sent, Forwarded(s.active, s.groups[p.gid], Plain(m)), c);
  }

  /** An upload by a registered user, a member or not, is stored under the next number and announced: every
      online member of the group is sent exactly one SEND_CHAT packet, "name just send file <file>" with one
      zero byte behind it, and nobody else anything. */
  lemma UploadIsAnnounced(s: State, p: Packet, body: seq<Byte>, accounts: seq<Account>, i: nat, c: Ptr)
    requires Shaped(s) && Agrees(s) && Booked(s, accounts) && p.gid < GROUP_NUM_MAX
    requires i < |accounts| && p.uid == i + 1
    ensures var s' := HandleSendFile(s, p, body);
            var fileName := UploadName(p.gid, s.fileCnt);
            var text := accounts[i].name + JUST_SEND_FILE + fileName + [0];
            && To(s'.sent, c) == To(s.sent, c)
               + (if OnlineMember(s, p.gid, c) then [Plain(Packet(SEND_CHAT, p.gid, p.uid, text))] else [])
            && s'.fileCnt == s.fileCnt + 1 && s'.files == s.files[FileName(fileName) := body]
  {
    var text := accounts[i].name + JUST_SEND_FILE + UploadName(p.gid, s.fileCnt) + [0];
    StoredUsername(s, accounts, i);
    NoticeReaches(s, p, body, Packet(SEND_CHAT, p.gid, p.uid, text), c);
  }

  /** The words between the two names. */
  lemma JustSendFileIs()
    ensures |JUST_SEND_FILE| == |" just send file "|
    ensures forall k :: 0 <= k < |JUST_SEND_FILE| ==> JUST_SEND_FILE[k] == " just send file "[k] as int
  {
  }

  /** An upload by nobody registered is announced without a name, the last nine bytes of the file's name
      missing. */
  lemma UnknownUploadIsAnnounced(s: State, p: Packet, body: seq<Byte>, accounts: seq<Account>, c: Ptr)
    requires Shaped(s) && Agrees(s) && Booked(s, accounts) && p.gid < GROUP_NUM_MAX
    requires !(1 <= p.uid <= |accounts|) && |UploadName(p.gid, s.fileCnt)| >= 9
    ensures var fileName := UploadName(p.gid, s.fileCnt);
            var text := JUST_SEND_FILE + fileName[..|fileName| - 9];
            To(HandleSendFile(s, p, body).sent, c) == To(s.sent, c)
            + if OnlineMember(s, p.gid, c) then [Plain(Packet(SEND_CHAT, p.gid, p.uid, text))] else []
  {
    var fileName := UploadName(p.gid, s.fileCnt);
    UnknownUidHasNoName(s.lines, accounts, p.uid);
    UnknownSenderCutsNotice(fileName);
    NoticeReaches(s, p, body, Packet(SEND_CHAT, p.gid, p.uid, JUST_SEND_FILE + fileName[..|fileName| - 9]), c);
  }

  lemma {:induction false} RunKeepsUpload(s: State, events: seq<Event>, gid: nat, number: nat, body: seq<Byte>)
    requires Shaped(s) && LegalRun(s, events) && Stored(s, gid, number, body)
    ensures Stored(Run(s, events), gid, number, body)
    decreases |events|
  {
    if events != [] {
      StepKeepsGroups(s, events[0]);
      StepKeepsUpload(s, events[0], gid, number, body);
      RunKeepsUpload(Apply(s, events[0]), events[1..], gid, number, body);
    }
  }

  /** A file survives: whatever happens after an upload, a download under its name by a member of any group
      sends back exactly the uploaded bytes, with the upload's number in the uid field, whatever lies behind
      the tokens that split leaves unterminated; anybody else gets nothing. */
  lemma UploadThenDownload(s: State, c: Ptr, p: Packet, body: seq<Byte>, events: seq<Event>, c': Ptr, p': Packet)
    requires Shaped(s) && Acceptable(s, c, p, body) && p.cmd == SEND_FILE
    requires Shaped(HandleSendFile(s, p, body)) && LegalRun(HandleSendFile(s, p, body), events)
    requires p'.gid < GROUP_NUM_MAX && PayloadText(p'.payload) == UploadName(p.gid, s.fileCnt)
    ensures var s' := Run(HandleSendFile(s, p, body), events);
            && |s'.groups| == GROUP_NUM_MAX
            && (p'.uid in s'.groups[p'.gid] ==>
                  HandleDownload(s', c', p').sent == s'.sent + [Sent(c', File(p'.gid, ToUint16(s.fileCnt), body))])
            && (p'.uid !in s'.groups[p'.gid] ==> HandleDownload(s', c', p').sent == s'.sent)
    ensures forall junk, junk' ::
      ScannedText(DownloadPath(PayloadText(p'.payload)), junk, junk') == Some(Decimal(s.fileCnt))
  {
    var s1 := HandleSendFile(s, p, body);
    RunKeepsUpload(s1, events, p.gid, s.fileCnt, body);
    GroupsOverRuns(s1, events);
    NumberOfUpload(p.gid, s.fileCnt);
    var name := UploadName(p.gid, s.fileCnt);
    assert DownloadPath(name)[2..] == name;
  }

  // ---------------------------------------------------------------------------------------------
  // The list of online users
  // ---------------------------------------------------------------------------------------------

  function Usernames(conns: map<Ptr, Connection>, order: seq<Ptr>): (names: seq<Text>)
    requires forall i :: 0 <= i < |order| ==> order[i] in conns
    ensures |names| == |order| && forall i :: 0 <= i < |order| ==> names[i] == conns[order[i]].username
  {
    seq(|order|, i requires 0 <= i < |order| => conns[order[i]].username)
  }

  lemma JoinOfNames(names: seq<Text>, last: Text)
    ensures JoinTokens(names + [last] + [[]], COMMA) == JoinTokens(names + [[]], COMMA) + last + [COMMA]
  {
    var longer := names + [last];
    assert (longer + [[]])[..|longer|] == longer && longer[..|names|] == names && (names + [[]])[..|names|] == names;
  }

  lemma {:induction false} NamesAreJoined(conns: map<Ptr, Connection>, order: seq<Ptr>)
    requires forall i :: 0 <= i < |order| ==> order[i] in conns
    ensures JoinTokens(Usernames(conns, order) + [[]], COMMA) == ActiveNames(conns, order)
  {
    var names := Usernames(conns, order);
    assert (names + [[]])[..|names|] == names;
    if order != [] {
      var front := order[..|order| - 1];
      var last := conns[order[|order| - 1]].username;
      NamesAreJoined(conns, front);
      assert names == Usernames(conns, front) + [last];
      JoinOfNames(Usernames(conns, front), last);
    }
  }

  /** Cut at its commas, the file holds the names of the order, one by one, and an empty rest, if and only if
      no name holds a comma. */
  lemma ListHoldsNamesIff(conns: map<Ptr, Connection>, order: seq<Ptr>)
    requires forall i :: 0 <= i < |order| ==> order[i] in conns
    ensures Tokens(ActiveNames(conns, order), COMMA) == Usernames(conns, order) + [[]]
       <==> forall i :: 0 <= i < |order| ==> COMMA !in conns[order[i]].username
  {
    var names := Usernames(conns, order);
    NamesAreJoined(conns, order);
    JoinOfTokens(ActiveNames(conns, order), COMMA);
    if FreeOf(names + [[]], COMMA) {
      TokensOfJoin(names + [[]], COMMA);
    }
    assert forall i :: 0 <= i < |order| ==> (names + [[]])[i] == conns[order[i]].username;
  }

  lemma {:induction false} NamesHaveNoNewline(conns: map<Ptr, Connection>, order: seq<Ptr>)
    requires forall i :: 0 <= i < |order| ==> order[i] in conns && NEWLINE !in conns[order[i]].username
    ensures NEWLINE !in ActiveNames(conns, order)
  {
    if order != [] {
      NamesHaveNoNewline(conns, order[..|order| - 1]);
    }
  }

  /** An answer to ACTIVE_LIST that fits the buffer names every logged-in connection exactly once, and no
      other. */
  lemma ActiveListNamesAll(s: State, order: seq<Ptr>)
    requires OnlineOrder(s, order)
    requires forall c :: c in s.conns ==> COMMA !in s.conns[c].username && NEWLINE !in s.conns[c].username
    requires |ActiveNames(s.conns, order)| < 1024
    ensures Tokens(FirstLine(ActiveNames(s.conns, order), ACTIVE_BUFFER), COMMA) == Usernames(s.conns, order) + [[]]
    ensures forall i, j :: 0 <= i < j < |order| ==> order[i] != order[j]
    ensures forall c :: c in order <==> c in s.conns && s.conns[c].uid != NOT_LOGGED_IN
  {
    ListHoldsNamesIff(s.conns, order);
    NamesHaveNoNewline(s.conns, order);
    FirstLineOf(ActiveNames(s.conns, order), ACTIVE_BUFFER);
  }

  // ---------------------------------------------------------------------------------------------
  // Everything sent can be read
  // ---------------------------------------------------------------------------------------------

  ghost predicate Readable(s: State) {
    (forall x :: x in s.sent ==> Sendable(x.m)) && forall f :: f in s.files ==> |s.files[f]| < INT_LIMIT
  }

  /** Stored names are short, so a sender's name is. */
  lemma SenderNameIsShort(s: State, uid: int, accounts: seq<Account>)
    requires Booked(s, accounts)
    ensures match FindUsername(Rows(s.lines), uid) case Some(name) => |name| <= 7 case None => true
  {
    StoredRows(s.lines, accounts);
    var r := UidRow(Rows(s.lines), uid, 0);
    if r < |s.lines| {
      assert Legal(accounts[r]);
    }
  }

  lemma {:induction false} ForwardedIsSendable(active: map<Key, Ptr>, members: seq<Uint16>, m: Message)
    requires Sendable(m)
    ensures forall x :: x in Forwarded(active, members, m) ==> Sendable(x.m)
  {
    if members != [] {
      ForwardedIsSendable(active, members[..|members| - 1], m);
    }
  }

  lemma ChatIsReadable(s: State, p: Packet, accounts: seq<Account>)
    requires Shaped(s) && Readable(s) && Booked(s, accounts) && p.gid < GROUP_NUM_MAX && |p.payload| + 64 < INT_LIMIT
    ensures Readable(HandleChat(s, p))
  {
    SenderNameIsShort(s, p.uid, accounts);
    if ChatSender(s, p).Some? {
      ForwardedIsSendable(s.active, s.groups[p.gid], Plain(ChatPacket(p, ChatSender(s, p).value)));
    }
  }

  lemma SendFileIsReadable(s: State, p: Packet, body: seq<Byte>, accounts: seq<Account>)
    requires Shaped(s) && Readable(s) && Booked(s, accounts) && p.gid < GROUP_NUM_MAX
    requires |body| < INT_LIMIT && |UploadName(p.gid, s.fileCnt)| + 2 < FILENAME_SIZE
    ensures Readable(HandleSendFile(s, p, body))
  {
    var name, fileName := FindUsername(Rows(s.lines), p.uid), UploadName(p.gid, s.fileCnt);
    SenderNameIsShort(s, p.uid, accounts);
    ForwardedIsSendable(s.active, s.groups[p.gid], Plain(Notice(p, s.lines, fileName)));
  }

  /** The handlers that answer or pass on one packet of their own making. */
  lemma RepliesAreReadable(s: State, c: Ptr, p: Packet, extra: seq<Byte>)
    requires Shaped(s) && Acceptable(s, c, p, extra) && Readable(s) && p.cmd != SEND_CHAT && p.cmd != SEND_FILE
    ensures Readable(HandlePacket(s, c, p, extra))
  {
  }

  lemma StepKeepsReadable(s: State, e: Event, accounts: seq<Account>)
    requires Shaped(s) && Enabled(s, e) && Readable(s) && Booked(s, accounts)
    ensures Readable(Apply(s, e))
  {
    if e.Receive? {
      if e.p.cmd == SEND_CHAT {
        ChatIsReadable(s, e.p, accounts);
      } else if e.p.cmd == SEND_FILE {
        SendFileIsReadable(s, e.p, e.extra, accounts);
      } else {
        RepliesAreReadable(s, e.c, e.p, e.extra);
      }
    }
  }

  lemma {:induction false} ToIsSendable(log: seq<Sent>, c: Ptr)
    requires forall x :: x in log ==> Sendable(x.m)
    ensures AllSendable(To(log, c))
  {
    if log != [] {
      ToIsSendable(log[..|log| - 1], c);
    }
  }

  /** Over every run, whatever a connection is sent satisfies what the reader of the stream needs. */
  lemma {:induction false} StreamsAreReadable(s: State, events: seq<Event>, accounts: seq<Account>, c: Ptr)
    requires Shaped(s) && LegalRun(s, events) && Readable(s) && Booked(s, accounts)
    ensures AllSendable(To(Run(s, events).sent, c))
    decreases |events|
  {
    if events == [] {
      ToIsSendable(s.sent, c);
    } else {
      StepKeepsGroups(s, events[0]);
      StepKeepsReadable(s, events[0], accounts);
      var accounts' := StepKeepsAccounts(s, events[0], accounts);
      StreamsAreReadable(Apply(s, events[0]), events[1..], accounts', c);
    }
  }

  /** So after every run the messages addressed to a connection, sent one after the other, are what its peer
      reads back, however the stream is cut. */
  method PeerReads(ms: seq<Message>, ghost s: State, ghost events: seq<Event>, ghost accounts: seq<Account>, ghost c: Ptr)
    returns (received: seq<Message>)
    requires Shaped(s) && LegalRun(s, events) && Readable(s) && Booked(s, accounts)
    requires ms == To(Run(s, events).sent, c)
    ensures received == To(Run(s, events).sent, c)
  {
    StreamsAreReadable(s, events, accounts, c);
    received := Sockets.Transmit(ms);
  }

  // ---------------------------------------------------------------------------------------------
  // From the start of the server
  // ---------------------------------------------------------------------------------------------

  lemma StartIsSound(mix: Mix, lines: seq<Text>, accounts: seq<Account>)
    requires Stores(lines, accounts) && |lines| < NOT_LOGGED_IN
    ensures var s := Start(lines);
            && Shaped(s) && FirstEmpty(s.groups, 0) == 0 && Agrees(s) && Booked(s, accounts) && Readable(s)
            && s.conns == map[] && s.sent == [] && s.files == map[] && s.fileCnt == 1 && s.lines == lines
    ensures Represents(mix, NEW_TABLE, map[])
  {
    forall key ensures Stack(mix, NEW_TABLE.slots, key) == [] {
      BlankStacks(mix, |NEW_TABLE.slots|, key);
    }
  }

  /** Everything that holds after any run of the server from its start: as many groups as creations; the
      index right, and served exactly by the hash map the run drove; no online entry for a closed
      connection; and every connection's output readable by its peer. */
  lemma EveryRunOfTheServer(mix: Mix, lines: seq<Text>, accounts: seq<Account>, events: seq<Event>, c: Ptr)
    requires Stores(lines, accounts) && |lines| < NOT_LOGGED_IN
    requires Shaped(Start(lines)) && LegalRun(Start(lines), events)
    ensures var s := Run(Start(lines), events);
            && Shaped(s) && FirstEmpty(s.groups, 0) == Opened(events)
            && Agrees(s) && (forall key :: key in s.active ==> s.active[key] in s.conns)
            && Represents(mix, PerformAll(mix, NEW_TABLE, RunMapOps(Start(lines), events)), s.active)
            && AllSendable(To(s.sent, c))
  {
    var s0 := Start(lines);
    StartIsSound(mix, lines, accounts);
    GroupsOverRuns(s0, events);
    var accounts' := IndexOverRuns(s0, events, accounts);
    TableServesIndex(mix, NEW_TABLE, s0, events, accounts);
    StreamsAreReadable(s0, events, accounts, c);
    var s := Run(s0, events);
    forall key | key in s.active ensures s.active[key] in s.conns {
      OnlyOpenConnections(s, key);
    }
  }
}
