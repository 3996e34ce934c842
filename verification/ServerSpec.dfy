/** The server of chat-server.c as a state machine: one step for each accepted connection, each packet
    handled and each disconnect, over the groups, the index of online users, the accounts, the
    connections, the uploads and everything sent. */
module ServerSpec {
  import opened Basics
  import opened Wire
  import opened TextFiles
  import opened Accounts
  import opened Credentials
  import opened FileNames
  import opened HashTable
  import Groups
  import HashMaps

  const GROUP_NUM_MAX := Groups.GROUP_NUM_MAX
  const ERR_NEED_LOGIN := -12

  /** client_arg->uid = -1 in 16 bits: the connection has not logged in. */
  const NOT_LOGGED_IN: Uint16 := 0xffff

  /** client_thread_data_t; its address names the connection. */
  datatype Connection = Connection(uid: Uint16, username: Text)

  datatype FileName = FileName(text: Text)

  /** One message written to one connection. */
  datatype Sent = Sent(to: Ptr, m: Message)

  /** `groups[g]` lists the members of group g in order; `conns` holds the open connections; `sent` is
      the log of all writes. */
  datatype State = State(
    groups: seq<seq<Uint16>>,
    groupCnt: nat,
    active: map<Key, Ptr>,
    conns: map<Ptr, Connection>,
    lines: seq<Text>,
    fileCnt: nat,
    files: map<FileName, seq<Byte>>,
    sent: seq<Sent>)

  /** No group, nobody online, nothing sent; the accounts are those of an earlier run. */
  function Start(lines: seq<Text>): State {
    State(seq(GROUP_NUM_MAX, _ => []), 0, map[], map[], lines, 1, map[], [])
  }

  /** `extra` is the file behind a SEND_FILE header, or the text that get_active_users_str returned for
      ACTIVE_LIST: its order is that of the hash map's slots. */
  datatype Event =
    | Accept(c: Ptr)
    | Receive(c: Ptr, p: Packet, extra: seq<Byte>)
    | Disconnect(c: Ptr)

  /** Conversion to uint16_t and to uint8_t. */
  function ToUint16(n: int): (u: Uint16)
    ensures 0 <= n < 0x1_0000 ==> u == n
  {
    n % 0x1_0000
  }

  function ToByte(n: int): (b: Byte)
    ensures -0x100 <= n < 0 ==> b == n + 0x100
  {
    n % 0x100
  }

  /** hashmap keys are uids widened to 64 bits. */
  function UidKey(uid: nat): Key { Key(uid) }

  /** The text of a payload copied into a zeroed buffer. */
  function PayloadText(payload: seq<Byte>): Text {
    payload[..TextEnd(payload, 0, |payload|)]
  }

  /** The name and password the handlers see; None when the payload has no ':' or a text lost its
      terminator. */
  function CredentialsIn(payload: seq<Byte>): Option<Account> {
    if !HasColon(payload) then None
    else match (CString(Parse(payload).name), CString(Parse(payload).password))
         case (Some(name), Some(password)) => Some(Account(name, password))
         case _ => None
  }

  /** The credentials that a client fills in arrive. */
  lemma LegalCredentialsArrive(a: Account)
    requires Legal(a) && COLON !in a.name
    ensures CredentialsIn(FillUsernamePassword(a.name, a.password)) == Some(a)
  {
    assert 0 !in a.name && 0 !in a.password;
    CredentialsRoundTripIff(a.name, a.password);
  }

  // What a handler leaves alone.

  predicate SameIndex(s: State, s': State) { s'.active == s.active && s'.conns == s.conns }
  predicate SameGroups(s: State, s': State) { s'.groups == s.groups && s'.groupCnt == s.groupCnt }
  predicate SameFiles(s: State, s': State) { s'.files == s.files && s'.fileCnt == s.fileCnt }
  predicate SameLines(s: State, s': State) { s'.lines == s.lines }

  function Reply(s: State, c: Ptr, p: Packet): (s': State)
    ensures SameIndex(s, s') && SameGroups(s, s') && SameFiles(s, s') && SameLines(s, s')
  {
    s.(sent := s.sent + [Sent(c, Plain(p))])
  }

  /** The answer to USR_CREATE, `lines` being the credential file afterwards. */
  function CreateReply(status: int, lines: seq<Text>, a: Account): Packet {
    if status > 0 then Packet(USR_CREATE, 0, ToUint16(MatchUserPw(Rows(lines), a.name, a.password)), [0])
    else Packet(USR_CREATE, 0, 0, [ToByte(ERR_USERNAME_EXIST)])
  }

  /** USR_CREATE */
  function HandleCreate(s: State, c: Ptr, a: Account): (s': State)
    ensures SameIndex(s, s') && SameGroups(s, s') && SameFiles(s, s')
  {
    var r := CreateUser(s.lines, a);
    Reply(s.(lines := r.1), c, CreateReply(r.0, r.1, a))
  }

  /** What a successful login stores: the connection's uid and name, and the index entry. */
  function LoggedIn(s: State, c: Ptr, status: nat, name: Text): State {
    s.(conns := s.conns[c := Connection(ToUint16(status), name)], active := s.active[UidKey(status) := c])
  }

  function LoginReply(status: int): Packet {
    if status > 0 then Packet(USR_LOGIN, 0, ToUint16(status), [0])
    else Packet(USR_LOGIN, 0, 0, [ToByte(ERR_GENERIC)])
  }

  /** USR_LOGIN */
  function HandleLogin(s: State, c: Ptr, a: Account): (s': State)
    ensures SameGroups(s, s') && SameFiles(s, s') && SameLines(s, s')
  {
    var status := MatchUserPw(Rows(s.lines), a.name, a.password);
    Reply(if status > 0 then LoggedIn(s, c, status, a.name) else s, c, LoginReply(status))
  }

  /** The first empty group at or after `g`. */
  function FirstEmpty(groups: seq<seq<Uint16>>, g: nat): (r: nat)
    requires g <= |groups|
    ensures g <= r <= |groups| && (r < |groups| ==> groups[r] == [])
    ensures forall h :: g <= h < r ==> groups[h] != []
    decreases |groups| - g
  {
    if g == |groups| || groups[g] == [] then g else FirstEmpty(groups, g + 1)
  }

  /** CREATE_GROUP */
  function HandleCreateGroup(s: State, c: Ptr, uid: Uint16): (s': State)
    requires uid > 0 ==> s.groupCnt <= |s.groups| && FirstEmpty(s.groups, s.groupCnt) < |s.groups| <= GROUP_NUM_MAX
    ensures SameIndex(s, s') && SameFiles(s, s') && SameLines(s, s')
  {
    if uid <= 0 then Reply(s, c, Packet(CREATE_GROUP, 0, uid, [ToByte(ERR_NEED_LOGIN)]))
    else
      var gid := FirstEmpty(s.groups, s.groupCnt);
      Reply(s.(groupCnt := gid, groups := s.groups[gid := [uid]]), c, Packet(CREATE_GROUP, gid, uid, [0]))
  }

  /** check_header_invite; a gid is never negative. */
  predicate InviteHeaderOk(p: Packet) {
    p.uid > 0 && |p.payload| <= MAX_CHAR_USERID - 1
  }

  /** INVITE */
  function HandleInvite(s: State, p: Packet): (s': State)
    requires p.gid < |s.groups|
    ensures SameIndex(s, s') && SameGroups(s, s') && SameFiles(s, s') && SameLines(s, s')
  {
    var peer := FindUid(Rows(s.lines), PayloadText(p.payload));
    if InviteHeaderOk(p) && p.uid in s.groups[p.gid] && peer > 0 && UidKey(peer) in s.active
    then Reply(s, s.active[UidKey(peer)], Packet(INVITE, p.gid, p.uid, []))
    else s
  }

  /** INVITE_RESP: joining takes no more than an existing group and a payload that starts with 'a'. */
  function HandleInviteResp(s: State, p: Packet): (s': State)
    requires p.gid < |s.groups|
    ensures SameIndex(s, s') && SameFiles(s, s') && SameLines(s, s') && s'.groupCnt == s.groupCnt
  {
    if InviteHeaderOk(p) && s.groups[p.gid] != [] && p.uid !in s.groups[p.gid]
       && p.payload != [] && p.payload[0] == 97
    then s.(groups := s.groups[p.gid := s.groups[p.gid] + [p.uid]])
    else s
  }

  /** What forward_to_group writes, walking the members in order. */
  function Forwarded(active: map<Key, Ptr>, members: seq<Uint16>, m: Message): seq<Sent> {
    if members == [] then []
    else
      Forwarded(active, members[..|members| - 1], m)
      + var key := UidKey(members[|members| - 1]); if key in active then [Sent(active[key], m)] else []
  }

  function ForwardToGroup(s: State, gid: nat, p: Packet): State
    requires gid < |s.groups|
  {
    s.(sent := s.sent + Forwarded(s.active, s.groups[gid], Plain(p)))
  }

  /** The chat packet the members get: "name:message". */
  function ChatPacket(p: Packet, name: Text): Packet {
    Packet(SEND_CHAT, p.gid, p.uid, name + [COLON] + p.payload)
  }

  /** Is a SEND_CHAT accepted, and under which name is it forwarded? */
  function ChatSender(s: State, p: Packet): Option<Text>
    requires p.gid < |s.groups|
  {
    if p.uid > 0 && p.uid in s.groups[p.gid] then
      match FindUsername(Rows(s.lines), p.uid)
      case Some(name) => if name != [] then Some(name) else None
      case None => None
    else None
  }

  /** SEND_CHAT */
  function HandleChat(s: State, p: Packet): (s': State)
    requires p.gid < |s.groups|
    ensures SameIndex(s, s') && SameGroups(s, s') && SameFiles(s, s') && SameLines(s, s')
  {
    match ChatSender(s, p)
    case Some(name) => ForwardToGroup(s, p.gid, ChatPacket(p, name))
    case None => s
  }

  /** " just send file " */
  const JUST_SEND_FILE: Text := [32, 106, 117, 115, 116, 32, 115, 101, 110, 100, 32, 102, 105, 108, 101, 32]

  /** The notice about an upload. Its length is computed as if find_username returned a name length, so
      the packet has one zero byte too many, and for an unknown sender (-10) it is cut short. */
  function NoticePayload(name: Option<Text>, fileName: Text): seq<Byte> {
    match name
    case Some(text) => text + JUST_SEND_FILE + fileName + [0]
    case None => (JUST_SEND_FILE + fileName)[..|fileName| + 7]
  }

  /** For an unknown sender the notice loses the last nine bytes of the file's name. */
  lemma UnknownSenderCutsNotice(fileName: Text)
    requires |fileName| >= 9
    ensures NoticePayload(None, fileName) == JUST_SEND_FILE + fileName[..|fileName| - 9]
  {
  }

  /** The notice holds the whole sentence, "<name> just send file <file>", if and only if the sender is
      known. */
  lemma NoticeIsWholeIff(name: Option<Text>, fileName: Text)
    ensures var sentence := (if name.Some? then name.value else []) + JUST_SEND_FILE + fileName;
            sentence <= NoticePayload(name, fileName) <==> name.Some?
  {
    match name
    case None =>
    case Some(text) =>
      var sentence := text + JUST_SEND_FILE + fileName;
      assert NoticePayload(name, fileName)[..|sentence|] == sentence;
  }

  function Notice(p: Packet, lines: seq<Text>, fileName: Text): Packet {
    Packet(SEND_CHAT, p.gid, p.uid, NoticePayload(FindUsername(Rows(lines), p.uid), fileName))
  }

  /** The file is stored under the next number. */
  function AfterUpload(s: State, gid: Byte, body: seq<Byte>): State {
    s.(fileCnt := s.fileCnt + 1, files := s.files[FileName(UploadName(gid, s.fileCnt)) := body])
  }

  /** SEND_FILE: stores the file under the next number and tells the group; nothing checks that the
      sender is a member. */
  function HandleSendFile(s: State, p: Packet, body: seq<Byte>): (s': State)
    requires p.gid < |s.groups|
    ensures SameIndex(s, s') && SameGroups(s, s') && SameLines(s, s')
  {
    ForwardToGroup(AfterUpload(s, p.gid, body), p.gid, Notice(p, s.lines, UploadName(p.gid, s.fileCnt)))
  }

  /** DOWNLOAD_FILE. The number sent along is the one in the name: see `StoredNames`. */
  function HandleDownload(s: State, c: Ptr, p: Packet): (s': State)
    requires p.gid < |s.groups|
    ensures SameIndex(s, s') && SameGroups(s, s') && SameFiles(s, s') && SameLines(s, s')
  {
    var path := DownloadPath(PayloadText(p.payload));
    var file := FileName(path[2..]);
    if p.uid in s.groups[p.gid] && NumberToken(path).Some? && file in s.files
    then s.(sent := s.sent + [Sent(c, File(p.gid, ToUint16(ScanDecimal(NumberToken(path).value)), s.files[file]))])
    else s
  }

  const COMMA: Byte := 44
  const ACTIVE_BUFFER := 1024

  /** The connections that have logged in, each once, in some order. */
  ghost predicate OnlineOrder(s: State, order: seq<Ptr>) {
    && HashMaps.Distinct(order)
    && forall c :: c in order <==> c in s.conns && s.conns[c].uid != NOT_LOGGED_IN
  }

  /** What the traversal writes to the file: each name with a comma behind it. */
  function ActiveNames(conns: map<Ptr, Connection>, order: seq<Ptr>): Text
    requires forall i :: 0 <= i < |order| ==> order[i] in conns
  {
    if order == [] then []
    else ActiveNames(conns, order[..|order| - 1]) + conns[order[|order| - 1]].username + [COMMA]
  }

  /** The answer to ACTIVE_LIST: the first line of that file, at most 1023 bytes. */
  ghost predicate ActiveAnswer(s: State, text: Text) {
    exists order :: OnlineOrder(s, order) && text == FirstLine(ActiveNames(s.conns, order), ACTIVE_BUFFER)
  }

  /** The number in every stored name is read alone, whatever lies behind it in memory. */
  ghost predicate StoredNames(files: map<FileName, seq<Byte>>) {
    forall f :: f in files ==> NumberIsSettled([DOT, SLASH] + f.text)
  }

  /** What the handlers rely on. The checks the source leaves to the client or to luck are here: groups
      below the array bound, a free group to create, credentials that parse, one login for each
      connection and one connection for each uid, and sizes that fit the C types. */
  ghost predicate Acceptable(s: State, c: Ptr, p: Packet, extra: seq<Byte>) {
    && c in s.conns && |p.payload| + 64 < INT_LIMIT
    && match p.cmd
       case USR_CREATE =>
         && CredentialsIn(p.payload).Some? && Legal(CredentialsIn(p.payload).value)
         && |s.lines| + 1 < NOT_LOGGED_IN
       case USR_LOGIN =>
         && CredentialsIn(p.payload).Some?
         && var a := CredentialsIn(p.payload).value;
            var status := MatchUserPw(Rows(s.lines), a.name, a.password);
            status > 0 ==> s.conns[c].uid == NOT_LOGGED_IN && UidKey(status) !in s.active
       case CREATE_GROUP => p.uid > 0 ==> FirstEmpty(s.groups, 0) < GROUP_NUM_MAX
       case SEND_FILE => p.gid < GROUP_NUM_MAX && |extra| < INT_LIMIT && |UploadName(p.gid, s.fileCnt)| + 2 < FILENAME_SIZE
       case DOWNLOAD_FILE =>
         && p.gid < GROUP_NUM_MAX && |s.groups| == GROUP_NUM_MAX
         && (p.uid in s.groups[p.gid] ==> NumberToken(DownloadPath(PayloadText(p.payload))).Some?)
       case ACTIVE_LIST => ActiveAnswer(s, extra)
       case INVITE | INVITE_RESP | SEND_CHAT => p.gid < GROUP_NUM_MAX
       case _ => true
  }

  ghost predicate Enabled(s: State, e: Event) {
    match e
    case Accept(c) => c != NULL && c !in s.conns
    case Receive(c, p, extra) => Acceptable(s, c, p, extra)
    case Disconnect(c) => c in s.conns
  }

  ghost predicate NoDuplicates(members: seq<Uint16>) {
    forall i, j :: 0 <= i < j < |members| ==> members[i] != members[j]
  }

  /** The allocated groups are exactly those below the first empty one, `groupCnt` is at most one
      behind, and every group lists distinct uids, none of them 0. */
  ghost predicate Shaped(s: State) {
    && |s.groups| == GROUP_NUM_MAX && s.groupCnt <= FirstEmpty(s.groups, 0) <= s.groupCnt + 1
    && (forall g :: FirstEmpty(s.groups, 0) <= g < GROUP_NUM_MAX ==> s.groups[g] == [])
    && (forall g :: 0 <= g < GROUP_NUM_MAX ==> NoDuplicates(s.groups[g]) && 0 !in s.groups[g])
  }

  lemma {:induction false} FirstEmptyIs(groups: seq<seq<Uint16>>, g: nat, r: nat)
    requires g <= r < |groups| && groups[r] == [] && forall h :: g <= h < r ==> groups[h] != []
    ensures FirstEmpty(groups, g) == r
    decreases r - g
  {
    if g < r {
      FirstEmptyIs(groups, g + 1, r);
    }
  }

  lemma {:induction false} FirstEmptyNone(groups: seq<seq<Uint16>>, g: nat)
    requires g <= |groups| && forall h :: g <= h < |groups| ==> groups[h] != []
    ensures FirstEmpty(groups, g) == |groups|
    decreases |groups| - g
  {
    if g < |groups| {
      FirstEmptyNone(groups, g + 1);
    }
  }

  /** The search from `groupCnt` finds the first empty group of all. */
  lemma FirstEmptyFromCount(s: State)
    requires Shaped(s)
    ensures s.groupCnt <= |s.groups| && FirstEmpty(s.groups, s.groupCnt) == FirstEmpty(s.groups, 0)
  {
    var r := FirstEmpty(s.groups, 0);
    if r < |s.groups| {
      FirstEmptyIs(s.groups, s.groupCnt, r);
    } else {
      FirstEmptyNone(s.groups, s.groupCnt);
    }
  }

  function HandlePacket(s: State, c: Ptr, p: Packet, extra: seq<Byte>): (s': State)
    requires Shaped(s) && Acceptable(s, c, p, extra)
    ensures p.cmd != USR_LOGIN ==> SameIndex(s, s')
    ensures p.cmd != USR_CREATE ==> SameLines(s, s')
    ensures p.cmd != CREATE_GROUP ==> s'.groupCnt == s.groupCnt
    ensures p.cmd != CREATE_GROUP && p.cmd != INVITE_RESP ==> SameGroups(s, s')
    ensures p.cmd != SEND_FILE ==> SameFiles(s, s')
  {
    match p.cmd
    case USR_CREATE => HandleCreate(s, c, CredentialsIn(p.payload).value)
    case USR_LOGIN => HandleLogin(s, c, CredentialsIn(p.payload).value)
    case CREATE_GROUP => FirstEmptyFromCount(s); HandleCreateGroup(s, c, p.uid)
    case INVITE => HandleInvite(s, p)
    case INVITE_RESP => HandleInviteResp(s, p)
    case SEND_CHAT => HandleChat(s, p)
    case ACTIVE_LIST => Reply(s, c, Packet(ACTIVE_LIST, 0, p.uid, extra))
    case SEND_FILE => HandleSendFile(s, p, extra)
    case DOWNLOAD_FILE => HandleDownload(s, c, p)
    case _ => s
  }

  /** The end of a connection: a connection that never logged in removes the key 65535. */
  function HandleDisconnect(s: State, c: Ptr): State
    requires c in s.conns
  {
    var uid := s.conns[c].uid;
    s.(active := if uid > 0 then s.active - {UidKey(uid)} else s.active, conns := s.conns - {c})
  }

  function Apply(s: State, e: Event): State
    requires Shaped(s) && Enabled(s, e)
  {
    match e
    case Accept(c) => s.(conns := s.conns[c := Connection(NOT_LOGGED_IN, [])])
    case Receive(c, p, extra) => HandlePacket(s, c, p, extra)
    case Disconnect(c) => HandleDisconnect(s, c)
  }

  // ---------------------------------------------------------------------------------------------
  // Groups
  // ---------------------------------------------------------------------------------------------

  lemma {:induction false} FirstEmptyFilled(groups: seq<seq<Uint16>>, g: nat, r: nat, members: seq<Uint16>)
    requires g <= r < |groups| && FirstEmpty(groups, g) == r && members != []
    requires forall h :: r < h < |groups| ==> groups[h] == []
    ensures FirstEmpty(groups[r := members], g) == r + 1
    decreases r - g
  {
    if g < r {
      FirstEmptyFilled(groups, g + 1, r, members);
    }
  }

  /** CREATE_GROUP by a logged-in user opens the lowest unused gid, with the creator as only member, and
      says so. */
  lemma CreateGroupOpensNext(s: State, c: Ptr, uid: Uint16)
    requires Shaped(s) && uid > 0 && FirstEmpty(s.groups, 0) < GROUP_NUM_MAX
    ensures s.groupCnt <= |s.groups| && FirstEmpty(s.groups, s.groupCnt) < |s.groups|
    ensures var gid := FirstEmpty(s.groups, 0);
            var s' := HandleCreateGroup(s, c, uid);
            && s'.groups == s.groups[gid := [uid]] && Shaped(s')
            && FirstEmpty(s'.groups, 0) == gid + 1
            && s'.sent == s.sent + [Sent(c, Plain(Packet(CREATE_GROUP, gid, uid, [0])))]
  {
    FirstEmptyFromCount(s);
    FirstEmptyFilled(s.groups, 0, FirstEmpty(s.groups, 0), [uid]);
  }

  lemma {:induction false} FirstEmptyUnmoved(groups: seq<seq<Uint16>>, g: nat, h: nat, members: seq<Uint16>)
    requires g <= |groups| && h < |groups| && groups[h] != [] && members != []
    ensures FirstEmpty(groups[h := members], g) == FirstEmpty(groups, g)
    decreases |groups| - g
  {
    if g < |groups| {
      FirstEmptyUnmoved(groups, g + 1, h, members);
    }
  }

  lemma InviteRespKeepsShape(s: State, p: Packet)
    requires Shaped(s) && p.gid < GROUP_NUM_MAX
    ensures Shaped(HandleInviteResp(s, p))
  {
    var s', members := HandleInviteResp(s, p), s.groups[p.gid];
    if s' != s {
      FirstEmptyUnmoved(s.groups, 0, p.gid, members + [p.uid]);
      assert NoDuplicates(members + [p.uid]);
    }
  }

  /** Who joins: a user who is not a member of an existing group, with a payload of at most seven bytes, is
      its last member afterwards if and only if the payload begins with 'a'; nothing else changes. */
  lemma InviteRespJoinsIff(s: State, p: Packet)
    requires p.gid < |s.groups| && s.groups[p.gid] != [] && p.uid !in s.groups[p.gid]
    requires p.uid > 0 && |p.payload| <= 7
    ensures var s' := HandleInviteResp(s, p);
            && |s'.groups| == |s.groups|
            && (s'.groups[p.gid] == s.groups[p.gid] + [p.uid] <==> p.payload != [] && p.payload[0] == 'a' as int)
            && (s'.groups[p.gid] != s.groups[p.gid] + [p.uid] ==> s' == s)
            && (forall g :: 0 <= g < |s.groups| && g != p.gid ==> s'.groups[g] == s.groups[g])
            && s' == s.(groups := s'.groups)
  {
    assert |s.groups[p.gid] + [p.uid]| > |s.groups[p.gid]|;
  }

  /** In all other cases a response changes nothing. */
  lemma OtherResponsesAreIgnored(s: State, p: Packet)
    requires p.gid < |s.groups|
    requires p.uid == 0 || |p.payload| > 7 || s.groups[p.gid] == [] || p.uid in s.groups[p.gid]
    ensures HandleInviteResp(s, p) == s
  {
  }

  /** CREATE_GROUP without a login is answered with -12 as a byte and opens nothing. */
  lemma CreateGroupNeedsLogin(s: State, c: Ptr)
    ensures HandleCreateGroup(s, c, 0) == s.(sent := s.sent + [Sent(c, Plain(Packet(CREATE_GROUP, 0, 0, [244])))])
  {
    assert ToByte(ERR_NEED_LOGIN) == 244;
  }

  /** A download by somebody who is not a member, or of a name that is not stored, sends nothing. */
  lemma DownloadNeedsFile(s: State, c: Ptr, p: Packet)
    requires p.gid < |s.groups|
    requires p.uid !in s.groups[p.gid] || FileName(DownloadPath(PayloadText(p.payload))[2..]) !in s.files
    ensures HandleDownload(s, c, p) == s
  {
  }

  /** ACTIVE_LIST is answered to the connection that asks, with the uid it gave and the text, and changes
      nothing. */
  lemma ActiveListAnswers(s: State, c: Ptr, p: Packet, text: Text)
    requires Shaped(s) && Enabled(s, Receive(c, p, text)) && p.cmd == ACTIVE_LIST
    ensures Apply(s, Receive(c, p, text)) == s.(sent := s.sent + [Sent(c, Plain(Packet(ACTIVE_LIST, 0, p.uid, text)))])
  {
  }

  /** What the other events do: a new connection is not logged in, a closed one is gone, an unknown command
      is ignored; nothing is sent. */
  lemma QuietEvents(s: State, e: Event)
    requires Shaped(s) && Enabled(s, e)
    ensures e.Accept? ==> Apply(s, e) == s.(conns := s.conns[e.c := Connection(0xffff, [])])
    ensures e.Disconnect? ==> Apply(s, e) == s.(conns := s.conns - {e.c}, active := Apply(s, e).active)
    ensures e.Receive? && !(1 <= e.p.cmd <= 9) ==> Apply(s, e) == s
  {
  }

  /** Groups after a step: nobody leaves, nobody is reordered, newcomers go to the end. */
  ghost predicate OnlyGrow(before: seq<seq<Uint16>>, after: seq<seq<Uint16>>) {
    |before| == |after| && forall g :: 0 <= g < |before| ==> before[g] <= after[g]
  }

  /** 1 when the event is a CREATE_GROUP of a logged-in user. */
  function Opens(e: Event): nat {
    if e.Receive? && e.p.cmd == CREATE_GROUP && e.p.uid > 0 then 1 else 0
  }

  /** Only CREATE_GROUP and INVITE_RESP touch the groups. */
  lemma StepKeepsGroups(s: State, e: Event)
    requires Shaped(s) && Enabled(s, e)
    ensures var s' := Apply(s, e);
            && Shaped(s') && OnlyGrow(s.groups, s'.groups)
            && FirstEmpty(s'.groups, 0) == FirstEmpty(s.groups, 0) + Opens(e)
  {
    if e.Receive? && e.p.cmd == CREATE_GROUP && e.p.uid > 0 {
      CreateGroupOpensNext(s, e.c, e.p.uid);
    } else if e.Receive? && e.p.cmd == INVITE_RESP {
      InviteRespKeepsShape(s, e.p);
      var s' := HandleInviteResp(s, e.p);
      if s' != s {
        FirstEmptyUnmoved(s.groups, 0, e.p.gid, s'.groups[e.p.gid]);
      }
    } else if e.Receive? && e.p.cmd == CREATE_GROUP {
      assert Apply(s, e).groups == s.groups && Apply(s, e).groupCnt == s.groupCnt;
    } else if e.Receive? {
      assert SameGroups(s, HandlePacket(s, e.c, e.p, e.extra));
    }
  }

  lemma UploadKeepsStoredNames(files: map<FileName, seq<Byte>>, gid: nat, number: nat, body: seq<Byte>)
    requires StoredNames(files) && |UploadName(gid, number)| + 2 < FILENAME_SIZE
    ensures StoredNames(files[FileName(UploadName(gid, number)) := body])
  {
    UploadIsSettled(gid, number);
  }

  lemma StepKeepsStoredNames(s: State, e: Event)
    requires Shaped(s) && Enabled(s, e) && StoredNames(s.files)
    ensures StoredNames(Apply(s, e).files)
  {
    if e.Receive? && e.p.cmd == SEND_FILE {
      UploadKeepsStoredNames(s.files, e.p.gid, s.fileCnt, e.extra);
    } else if e.Receive? {
      assert SameFiles(s, HandlePacket(s, e.c, e.p, e.extra));
    }
  }

  ghost predicate LegalRun(s: State, events: seq<Event>)
    requires Shaped(s)
    decreases |events|
  {
    events == [] || (Enabled(s, events[0]) && (StepKeepsGroups(s, events[0]); LegalRun(Apply(s, events[0]), events[1..])))
  }

  ghost function Run(s: State, events: seq<Event>): State
    requires Shaped(s) && LegalRun(s, events)
    decreases |events|
  {
    if events == [] then s else StepKeepsGroups(s, events[0]); Run(Apply(s, events[0]), events[1..])
  }

  function Opened(events: seq<Event>): nat {
    if events == [] then 0 else Opens(events[0]) + Opened(events[1..])
  }

  lemma GrowTransitive(a: seq<seq<Uint16>>, b: seq<seq<Uint16>>, c: seq<seq<Uint16>>)
    requires OnlyGrow(a, b) && OnlyGrow(b, c)
    ensures OnlyGrow(a, c)
  {
    forall g | 0 <= g < |a| ensures a[g] <= c[g] {
      assert a[g] <= b[g] <= c[g];
    }
  }

  /** Over every run: group lists stay duplicate-free and without uid 0, grow only at the tail, so each
      is headed by its creator for ever, and the number of groups grows by the number of creations. */
  lemma {:induction false} GroupsOverRuns(s: State, events: seq<Event>)
    requires Shaped(s) && LegalRun(s, events)
    ensures var s' := Run(s, events);
            && Shaped(s') && OnlyGrow(s.groups, s'.groups)
            && FirstEmpty(s'.groups, 0) == FirstEmpty(s.groups, 0) + Opened(events)
    decreases |events|
  {
    if events != [] {
      var s1 := Apply(s, events[0]);
      StepKeepsGroups(s, events[0]);
      GroupsOverRuns(s1, events[1..]);
      GrowTransitive(s.groups, s1.groups, Run(s1, events[1..]).groups);
    }
  }

  lemma StartIsShaped(lines: seq<Text>)
    ensures Shaped(Start(lines)) && FirstEmpty(Start(lines).groups, 0) == 0
  {
  }

  /** From the start of the server, the next creation after any run is answered with the number of creations
      before it: they get the gids 0, 1, 2, ... in turn, and each group begins with its creator. */
  lemma GidsInTurn(lines: seq<Text>, events: seq<Event>, c: Ptr, uid: Uint16)
    requires Shaped(Start(lines)) && LegalRun(Start(lines), events)
    requires uid > 0 && Opened(events) < GROUP_NUM_MAX
    ensures var s := Run(Start(lines), events);
            && s.groupCnt <= |s.groups| == GROUP_NUM_MAX && FirstEmpty(s.groups, s.groupCnt) < |s.groups|
            && HandleCreateGroup(s, c, uid).sent
               == s.sent + [Sent(c, Plain(Packet(CREATE_GROUP, Opened(events), uid, [0])))]
            && HandleCreateGroup(s, c, uid).groups == s.groups[Opened(events) := [uid]]
  {
    StartIsShaped(lines);
    GroupsOverRuns(Start(lines), events);
    CreateGroupOpensNext(Run(Start(lines), events), c, uid);
  }
}
