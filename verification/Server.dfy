/** The handlers of chat-server.c over their real data: the group lists, the credential file and the hash
    map of online users. Each is proved to do the step of `ServerSpec`. */
module Server {
  import opened Basics
  import opened Wire
  import opened TextFiles
  import opened Accounts
  import opened Credentials
  import opened FileNames
  import opened Tokenizer
  import opened HashTable
  import opened ServerSpec
  import opened OnlineIndex
  import Groups
  import HashMaps

  const MAP_OK := HashMaps.MAP_OK

  /** The zeroed name buffer reads as the payload's text. */
  lemma PayloadBuffer(payload: seq<Byte>, buffer: seq<Byte>)
    requires |payload| < MAX_CHAR_USERID
    requires buffer == StrncpyBytes(payload, |payload|) + Zeros(MAX_CHAR_USERID - |payload|)
    ensures CString(buffer) == Some(PayloadText(payload))
  {
    var m := TextEnd(payload, 0, |payload|);
    CStringOfPadded(payload[..m], MAX_CHAR_USERID - m);
    assert buffer == payload[..m] + Zeros(MAX_CHAR_USERID - m);
  }

  /** The two calls of split in DOWNLOAD_FILE and the text handed to sscanf. A token that is the last of its
      string has no terminator, so reading goes on into what lies behind it: `junk` for the first split,
      `junk'` for the second. */
  method FileNumber(path: Text, junk: Text, junk': Text) returns (number: Text)
    requires NumberToken(path).Some?
    ensures Some(number) == ScannedText(path, junk, junk')
  {
    var count, inputs := SplitString(path, UNDERSCORE);
    var piece := inputs[1][..inputs[1].Length - 1];
    if count == 2 {
      piece := piece + junk;
    }
    var count', inputs' := SplitString(piece, DOT);
    number := inputs'[0][..inputs'[0].Length - 1];
    if count' == 1 {
      number := number + junk';
    }
  }

  class ChatServer {
    const table: Groups.GroupTable
    const creds: CredentialFile
    const online: HashMaps.HashMap
    var groupCnt: nat
    var fileCnt: nat
    var conns: map<Ptr, Connection>
    var files: map<FileName, seq<Byte>>
    var sent: seq<Sent>
    ghost var active: map<Key, Ptr>
    ghost var accounts: seq<Account>

    ghost function Abs(): State
      reads this, table, creds
    {
      State(table.members, groupCnt, active, conns, creds.Lines(), fileCnt, files, sent)
    }

    /** The hash map stands for the index. */
    ghost predicate IndexOk()
      reads this`active, online, online.data
    {
      online.Valid() && Represents(online.mix, online.Abs(), active)
    }

    ghost predicate AccountsOk()
      reads this`accounts, creds
    {
      Stores(creds.Lines(), accounts) && |creds.Lines()| < NOT_LOGGED_IN
    }

    ghost predicate TablesOk()
      reads this`accounts, this`active, table, table.groups, creds, online, online.data
    {
      && table.Valid() && IndexOk()
      && AccountsOk()
    }

    ghost predicate Valid()
      reads this, table, table.groups, creds, online, online.data
    {
      TablesOk() && WellKept(Abs())
    }

    /** The start of main: no group, nobody online. */
    constructor (mix: Mix, content: Text, ghost accounts: seq<Account>)
      requires Stores(Cut(content), accounts) && |Cut(content)| < NOT_LOGGED_IN
      ensures Valid() && Abs() == Start(Cut(content))
      ensures Agrees(Abs())
    {
      table := new Groups.GroupTable();
      creds := new CredentialFile(content);
      online := new HashMaps.HashMap(mix);
      groupCnt, fileCnt, conns, files, sent := 0, 1, map[], map[], [];
      active, this.accounts := map[], accounts;
    }

    /** The server's send_main_header, on the connection's socket. */
    method Send(c: Ptr, p: Packet)
      modifies this`sent
      ensures sent == old(sent) + [Sent(c, Plain(p))]
    {
      sent := sent + [Sent(c, Plain(p))];
    }

    /** hashmap_get on the online users. */
    method Lookup(uid: nat) returns (found: bool, c: Ptr)
      requires IndexOk()
      ensures found <==> UidKey(uid) in active
      ensures found ==> c == active[UidKey(uid)]
    {
      var status, data := online.Get(UidKey(uid));
      assert Stack(online.mix, online.Abs().slots, UidKey(uid)) == if UidKey(uid) in active then [active[UidKey(uid)]] else [];
      found, c := status == MAP_OK, data;
    }

    /** The body of forward_to_group's loop: a fresh copy goes to a member who is online. */
    method ForwardTo(uid: Uint16, p: Packet)
      requires IndexOk()
      modifies this`sent
      ensures sent == old(sent) + if UidKey(uid) in active then [Sent(active[UidKey(uid)], Plain(p))] else []
    {
      var found, data := Lookup(uid);
      if found {
        Send(data, p);
      }
    }

    lemma ForwardStep(uids: seq<Uint16>, k: nat, m: Message)
      requires k < |uids|
      ensures Forwarded(active, uids[..k + 1], m)
           == Forwarded(active, uids[..k], m) + if UidKey(uids[k]) in active then [Sent(active[UidKey(uids[k])], m)] else []
    {
      assert uids[..k + 1][..k] == uids[..k];
    }

    /** One step along a list: the member there and the next node. */
    method Step(ghost head: Ptr, ghost at: set<Ptr>, ghost uids: seq<Uint16>, current: Ptr, ghost k: nat)
      returns (uid: Uint16, next: Ptr)
      requires Groups.List(table.mem, at, head, uids) && Groups.Cursor(table.mem, at, head, uids, current, k)
      requires current != NULL
      ensures k < |uids| && uid == uids[k] && Groups.Cursor(table.mem, at, head, uids, next, k + 1)
    {
      Groups.CursorAdvances(table.mem, at, head, uids, current, k);
      uid, next := table.mem[current].uid, table.mem[current].next;
    }

    /** The walk of forward_to_group over one list. */
    method ForwardAll(head: Ptr, p: Packet, ghost at: set<Ptr>, ghost uids: seq<Uint16>)
      requires Groups.List(table.mem, at, head, uids) && IndexOk()
      modifies this`sent
      ensures sent == old(sent) + Forwarded(active, uids, Plain(p))
    {
      var current := head;
      ghost var k := 0;
      while current != NULL
        invariant Groups.Cursor(table.mem, at, head, uids, current, k)
        invariant sent == old(sent) + Forwarded(active, uids[..k], Plain(p))
        decreases |uids| - k
      {
        ForwardStep(uids, k, Plain(p));
        var uid, next := Step(head, at, uids, current, k);
        ForwardTo(uid, p);
        current, k := next, k + 1;
      }
      assert uids[..k] == uids;
    }

    /** forward_to_group */
    method Forward(gid: nat, p: Packet)
      requires table.Valid() && IndexOk()
      requires gid < GROUP_NUM_MAX
      modifies this`sent
      ensures sent == old(sent) + Forwarded(active, table.members[gid], Plain(p))
    {
      ForwardAll(table.groups[gid], p, table.at[gid], table.members[gid]);
    }

    /** The two zeroed buffers of the handlers, filled by parse_username_pw and read as C strings. */
    method ReadCredentials(payload: seq<Byte>) returns (a: Account)
      requires CredentialsIn(payload).Some?
      ensures a == CredentialsIn(payload).value
    {
      var username := new Byte[MAX_CHAR_USERID](_ => 0);
      var password := new Byte[MAX_CHAR_USERPASS](_ => 0);
      assert username[..] == Zeros(MAX_CHAR_USERID) && password[..] == Zeros(MAX_CHAR_USERPASS);
      var status := ParseUsernamePw(username, password, payload);
      a := Account(CString(username[..]).value, CString(password[..]).value);
    }

    /** The sender's name for the notice about an upload. */
    method SenderName(uid: Uint16) returns (username: Option<Text>)
      requires AccountsOk()
      ensures username == FindUsername(Rows(creds.Lines()), uid)
    {
      StoredIsReadable(creds.Lines(), accounts);
      username := creds.FindUsernameOf(uid);
    }

    /** SEND_CHAT */
    method DoChat(p: Packet)
      requires TablesOk() && p.gid < GROUP_NUM_MAX
      modifies this`sent
      ensures Abs() == HandleChat(old(Abs()), p)
    {
      if p.uid <= 0 {
        return;
      }
      var empty := table.IsEmpty(p.gid);
      if empty {
        return;
      }
      var status := table.CheckUserInGroup(p.uid, p.gid);
      if status != 0 {
        return;
      }
      var username := SenderName(p.uid);
      if username.None? || |username.value| <= 0 {
        return;
      }
      Forward(p.gid, ChatPacket(p, username.value));
    }

    /** create_user over an account file. */
    method CreateAccount(a: Account) returns (status: int)
      requires AccountsOk() && Legal(a) && |creds.Lines()| + 1 < NOT_LOGGED_IN
      modifies this`accounts, creds
      ensures AccountsOk() && status == CreateUser(old(creds.Lines()), a).0
      ensures creds.Lines() == CreateUser(old(creds.Lines()), a).1
    {
      StoredIsReadable(creds.Lines(), accounts);
      CreationStores(creds.Lines(), accounts, a);
      CreationOnFile(creds.content, accounts, a);
      status := creds.CreateUserOf(a.name, a.password);
      if status > 0 {
        accounts := accounts + [a];
      }
    }

    /** create_user, and on success match_user_pw for the uid that is sent back. */
    method Register(a: Account) returns (answer: Packet)
      requires AccountsOk() && Legal(a) && |creds.Lines()| + 1 < NOT_LOGGED_IN
      modifies this`accounts, creds
      ensures AccountsOk()
      ensures var r := CreateUser(old(creds.Lines()), a);
              creds.Lines() == r.1 && answer == CreateReply(r.0, r.1, a)
    {
      var status := CreateAccount(a);
      answer := Packet(USR_CREATE, 0, 0, [ToByte(ERR_USERNAME_EXIST)]);
      if status > 0 {
        StoredIsReadable(creds.Lines(), accounts);
        var newUid := creds.MatchUserPwOf(a.name, a.password);
        answer := Packet(USR_CREATE, 0, ToUint16(newUid), [0]);
      }
    }

    /** USR_CREATE, the credentials being read. */
    method DoCreate(c: Ptr, a: Account)
      requires TablesOk() && Legal(a) && |creds.Lines()| + 1 < NOT_LOGGED_IN
      modifies this`sent, this`accounts, creds
      ensures AccountsOk() && Abs() == HandleCreate(old(Abs()), c, a)
    {
      var answer := Register(a);
      Send(c, answer);
      assert Abs() == HandleCreate(old(Abs()), c, a);
    }

    /** Stores a login in the connection's data and in the hash map. */
    method EnterOnline(c: Ptr, status: nat, name: Text)
      requires IndexOk() && UidKey(status) !in active
      modifies this`conns, this`active, online`data, online`tableSize, online`size, online.data
      ensures IndexOk() && Abs() == LoggedIn(old(Abs()), c, status, name)
    {
      conns := conns[c := Connection(ToUint16(status), name)];
      PutAbsentIsUpdate(online.mix, online.Abs(), active, UidKey(status), c);
      var ok := online.PutValue(UidKey(status), c);
      active := active[UidKey(status) := c];
    }

    /** USR_LOGIN, the credentials being read. */
    method DoLogin(c: Ptr, a: Account)
      requires IndexOk() && AccountsOk()
      requires var status := MatchUserPw(Rows(creds.Lines()), a.name, a.password);
               status > 0 ==> UidKey(status) !in active
      modifies this`sent, this`conns, this`active, online`data, online`tableSize, online`size, online.data
      ensures IndexOk() && Abs() == HandleLogin(old(Abs()), c, a)
    {
      StoredIsReadable(creds.Lines(), accounts);
      var status := creds.MatchUserPwOf(a.name, a.password);
      var answer := Packet(USR_LOGIN, 0, 0, [ToByte(ERR_GENERIC)]);
      if status > 0 {
        EnterOnline(c, status, a.name);
        answer := Packet(USR_LOGIN, 0, ToUint16(status), [0]);
      }
      Send(c, answer);
    }

    /** The search of CREATE_GROUP for a free group. */
    method NextGroup()
      requires table.Valid() && groupCnt <= GROUP_NUM_MAX && FirstEmpty(table.members, groupCnt) < GROUP_NUM_MAX
      modifies this`groupCnt
      ensures groupCnt == FirstEmpty(table.members, old(groupCnt))
    {
      var empty := table.IsEmpty(groupCnt);
      while !empty
        invariant groupCnt < GROUP_NUM_MAX && (empty <==> table.members[groupCnt] == [])
        invariant FirstEmpty(table.members, groupCnt) == FirstEmpty(table.members, old(groupCnt))
        decreases GROUP_NUM_MAX - groupCnt, !empty
      {
        groupCnt := groupCnt + 1;
        empty := table.IsEmpty(groupCnt);
      }
    }

    /** CREATE_GROUP */
    method DoCreateGroup(c: Ptr, uid: Uint16, unused: Ptr)
      requires Valid() && unused != NULL && unused !in table.mem
      requires uid > 0 ==> FirstEmpty(table.members, 0) < GROUP_NUM_MAX
      modifies this`sent, this`groupCnt, table, table.groups
      ensures TablesOk() && (FirstEmptyFromCount(old(Abs())); Abs() == HandleCreateGroup(old(Abs()), c, uid))
    {
      FirstEmptyFromCount(Abs());
      if uid <= 0 {
        Send(c, Packet(CREATE_GROUP, 0, uid, [ToByte(ERR_NEED_LOGIN)]));
      } else {
        NextGroup();
        table.NewGroup(uid, groupCnt, unused);
        Send(c, Packet(CREATE_GROUP, groupCnt, uid, [0]));
      }
    }

    /** INVITE */
    method DoInvite(p: Packet)
      requires TablesOk() && p.gid < GROUP_NUM_MAX
      modifies this`sent
      ensures Abs() == HandleInvite(old(Abs()), p)
    {
      StoredIsReadable(creds.Lines(), accounts);
      if !InviteHeaderOk(p) {
        return;
      }
      var empty := table.IsEmpty(p.gid);
      if empty {
        return;
      }
      var status := table.CheckUserInGroup(p.uid, p.gid);
      if status != 0 {
        return;
      }
      var username := new Byte[MAX_CHAR_USERID](_ => 0);
      Strncpy(username, p.payload, |p.payload|);
      PayloadBuffer(p.payload, username[..]);
      var peerId := creds.FindUidOf(CString(username[..]).value);
      if peerId <= 0 {
        return;
      }
      var found, peer := Lookup(peerId);
      if !found {
        return;
      }
      Send(peer, Packet(INVITE, p.gid, p.uid, []));
    }

    /** INVITE_RESP */
    method DoInviteResp(p: Packet, unused: Ptr)
      requires TablesOk() && p.gid < GROUP_NUM_MAX && unused != NULL && unused !in table.mem
      modifies table
      ensures TablesOk() && Abs() == HandleInviteResp(old(Abs()), p)
    {
      if !InviteHeaderOk(p) {
        return;
      }
      var empty := table.IsEmpty(p.gid);
      if empty {
        return;
      }
      var status := table.CheckUserInGroup(p.uid, p.gid);
      if status == 0 {
        return;
      }
      if p.payload != [] && p.payload[0] == 97 {
        status := table.AddUserToGroup(p.uid, p.gid, unused);
      }
    }

    /** The upload is written under the next number. */
    method StoreFile(gid: Byte, body: seq<Byte>) returns (filename: Text)
      modifies this`fileCnt, this`files
      ensures filename == UploadName(gid, old(fileCnt)) && Abs() == AfterUpload(old(Abs()), gid, body)
    {
      filename := UploadName(gid, fileCnt);
      fileCnt := fileCnt + 1;
      files := files[FileName(filename) := body];
    }

    /** The notice about an upload. */
    method MakeNotice(p: Packet, filename: Text) returns (notice: Packet)
      requires AccountsOk()
      ensures notice == Notice(p, creds.Lines(), filename)
    {
      var username := SenderName(p.uid);
      notice := Packet(SEND_CHAT, p.gid, p.uid, NoticePayload(username, filename));
    }

    /** SEND_FILE; `body` is what receive_to_file read. */
    method DoSendFile(p: Packet, body: seq<Byte>)
      requires TablesOk() && p.gid < GROUP_NUM_MAX
      modifies this`sent, this`fileCnt, this`files
      ensures Abs() == HandleSendFile(old(Abs()), p, body)
    {
      var filename := StoreFile(p.gid, body);
      var notice := MakeNotice(p, filename);
      Forward(p.gid, notice);
    }

    /** DOWNLOAD_FILE */
    method DoDownload(c: Ptr, p: Packet)
      requires TablesOk() && p.gid < GROUP_NUM_MAX
      requires StoredNames(files)
      requires p.uid in table.members[p.gid] ==> NumberToken(DownloadPath(PayloadText(p.payload))).Some?
      modifies this`sent
      ensures Abs() == HandleDownload(old(Abs()), c, p)
    {
      var filename := DownloadPath(PayloadText(p.payload));
      var empty := table.IsEmpty(p.gid);
      if empty {
        return;
      }
      var status := table.CheckUserInGroup(p.uid, p.gid);
      if status != 0 {
        return;
      }
      var junk: Text, junk': Text := *, *;
      var number := FileNumber(filename, junk, junk');
      var file := FileName(filename[2..]);
      if file in files {
        assert [DOT, SLASH] + file.text == filename;
        SettledNumberIsRead(filename, junk, junk');
        sent := sent + [Sent(c, File(p.gid, ToUint16(ScanDecimal(number)), files[file]))];
      }
    }

    /** The end of client_thread_function. */
    method Hangup(c: Ptr)
      requires Valid() && c in conns
      modifies this`conns, this`active, online`size, online.data
      ensures Valid() && Abs() == HandleDisconnect(old(Abs()), c)
    {
      StepKeepsWell(Abs(), Disconnect(c), accounts);
      var uid := conns[c].uid;
      if uid > 0 {
        RemoveIsDeletion(online.mix, online.Abs(), active, UidKey(uid));
        var status := online.Remove(UidKey(uid));
        active := active - {UidKey(uid)};
      }
      conns := conns - {c};
    }

    /** accept() returned a connection. */
    method Admit(c: Ptr)
      requires Valid() && c != NULL && c !in conns
      modifies this`conns
      ensures Valid() && Abs() == Apply(old(Abs()), Accept(c))
    {
      StepKeepsWell(Abs(), Accept(c), accounts);
      conns := conns[c := Connection(NOT_LOGGED_IN, [])];
    }

    /** The command USR_CREATE. */
    method HandleCreatePacket(c: Ptr, p: Packet)
      requires Valid() && Acceptable(Abs(), c, p, []) && p.cmd == USR_CREATE
      modifies this`sent, this`accounts, creds
      ensures Valid() && Abs() == Apply(old(Abs()), Receive(c, p, []))
    {
      StepKeepsWell(Abs(), Receive(c, p, []), accounts);
      var a := ReadCredentials(p.payload);
      DoCreate(c, a);
    }

    /** USR_LOGIN: reads the credentials and logs in. */
    method ReadAndLogin(c: Ptr, p: Packet)
      requires IndexOk() && AccountsOk() && Acceptable(Abs(), c, p, []) && p.cmd == USR_LOGIN
      modifies this`sent, this`conns, this`active, online`data, online`tableSize, online`size, online.data
      ensures IndexOk() && Abs() == HandleLogin(old(Abs()), c, CredentialsIn(p.payload).value)
    {
      var a := ReadCredentials(p.payload);
      DoLogin(c, a);
    }

    /** The command USR_LOGIN. */
    method HandleLoginPacket(c: Ptr, p: Packet)
      requires Valid() && Acceptable(Abs(), c, p, []) && p.cmd == USR_LOGIN
      modifies this`sent, this`conns, this`active, online`data, online`tableSize, online`size, online.data
      ensures Valid() && Abs() == Apply(old(Abs()), Receive(c, p, []))
    {
      StepKeepsWell(Abs(), Receive(c, p, []), accounts);
      ReadAndLogin(c, p);
    }

    /** active_socket_walk over the online users, into a file. */
    method WriteNames(shown: seq<Ptr>) returns (content: Text)
      requires forall i :: 0 <= i < |shown| ==> shown[i] in conns
      ensures content == ActiveNames(conns, shown)
    {
      content := [];
      var k := 0;
      while k < |shown|
        invariant 0 <= k <= |shown| && content == ActiveNames(conns, shown[..k])
      {
        assert shown[..k + 1][..k] == shown[..k];
        content := content + conns[shown[k]].username + [COMMA];
        k := k + 1;
      }
      assert shown[..k] == shown;
    }

    /** get_active_users_str: the names in slot order. */
    method ActiveUsers() returns (text: Text)
      requires IndexOk() && Agrees(Abs())
      ensures OnlineOrder(Abs(), HashMaps.UsedFrom(online.data[..], 0))
      ensures text == FirstLine(ActiveNames(conns, HashMaps.UsedFrom(online.data[..], 0)), ACTIVE_BUFFER)
    {
      ghost var order := HashMaps.UsedFrom(online.data[..], 0);
      IterationIsOnlineOrder(online.mix, online.Abs(), Abs());
      var status, shown := online.Iterate(_ => MAP_OK);
      HashMaps.AllVisited(order, _ => MAP_OK);
      assert forall i :: 0 <= i < |order| ==> order[i] in order;
      var content := WriteNames(shown);
      text := [];
      if content != [] {
        var line, rest := Fgets(content, ACTIVE_BUFFER);
        text := line;
      }
    }

    /** ACTIVE_LIST */
    method DoActiveList(c: Ptr, p: Packet) returns (text: Text)
      requires Valid()
      modifies this`sent
      ensures Valid()
      ensures ActiveAnswer(old(Abs()), text) && OnlineOrder(Abs(), HashMaps.UsedFrom(online.data[..], 0))
      ensures text == FirstLine(ActiveNames(conns, HashMaps.UsedFrom(online.data[..], 0)), ACTIVE_BUFFER)
      ensures Abs() == Reply(old(Abs()), c, Packet(ACTIVE_LIST, 0, p.uid, text))
    {
      text := ActiveUsers();
      SameIndexAgrees(Abs(), Reply(Abs(), c, Packet(ACTIVE_LIST, 0, p.uid, text)));
      Send(c, Packet(ACTIVE_LIST, 0, p.uid, text));
    }

    /** The commands that change group lists. */
    method HandleGroupPacket(c: Ptr, p: Packet, unused: Ptr)
      requires Valid() && Acceptable(Abs(), c, p, []) && unused != NULL && unused !in table.mem
      requires p.cmd == CREATE_GROUP || p.cmd == INVITE_RESP
      modifies this`sent, this`groupCnt, table, table.groups
      ensures Valid() && Abs() == Apply(old(Abs()), Receive(c, p, []))
    {
      StepKeepsWell(Abs(), Receive(c, p, []), accounts);
      if p.cmd == CREATE_GROUP {
        DoCreateGroup(c, p.uid, unused);
      } else {
        DoInviteResp(p, unused);
      }
    }

    /** The commands that pass a message on, and any other command, which is ignored. */
    method HandleMessage(c: Ptr, p: Packet)
      requires Valid() && Acceptable(Abs(), c, p, [])
      requires p.cmd !in {USR_CREATE, USR_LOGIN, ACTIVE_LIST, CREATE_GROUP, INVITE_RESP, SEND_FILE, DOWNLOAD_FILE}
      modifies this`sent
      ensures Valid() && Abs() == Apply(old(Abs()), Receive(c, p, []))
    {
      StepKeepsWell(Abs(), Receive(c, p, []), accounts);
      if p.cmd == INVITE {
        DoInvite(p);
      } else if p.cmd == SEND_CHAT {
        DoChat(p);
      }
    }

    /** The commands about files. */
    method HandleFile(c: Ptr, p: Packet, extra: seq<Byte>)
      requires Valid() && Acceptable(Abs(), c, p, extra) && (p.cmd == SEND_FILE || p.cmd == DOWNLOAD_FILE)
      modifies this`sent, this`fileCnt, this`files
      ensures Valid() && Abs() == Apply(old(Abs()), Receive(c, p, extra))
    {
      StepKeepsWell(Abs(), Receive(c, p, extra), accounts);
      if p.cmd == SEND_FILE {
        DoSendFile(p, extra);
      } else {
        DoDownload(c, p);
      }
    }

    /** One round of client_thread_function: a packet, with the file behind it for SEND_FILE; `unused` is the
        address malloc returns if called. The text of an ACTIVE_LIST answer is computed here and becomes part
        of the event. */
    method Handle(c: Ptr, p: Packet, extra: seq<Byte>, unused: Ptr) returns (ghost text: Text)
      requires Valid() && (p.cmd != ACTIVE_LIST ==> Acceptable(Abs(), c, p, extra))
      requires c in conns && |p.payload| + 64 < INT_LIMIT && unused != NULL && unused !in table.mem
      modifies this, table, table.groups, creds, online, online.data
      ensures p.cmd != ACTIVE_LIST ==> text == extra
      ensures Acceptable(old(Abs()), c, p, text)
      ensures Valid() && Abs() == Apply(old(Abs()), Receive(c, p, text))
    {
      text := extra;
      if p.cmd == USR_CREATE {
        HandleCreatePacket(c, p);
      } else if p.cmd == USR_LOGIN {
        HandleLoginPacket(c, p);
      } else if p.cmd == ACTIVE_LIST {
        text := DoActiveList(c, p);
      } else if p.cmd == CREATE_GROUP || p.cmd == INVITE_RESP {
        HandleGroupPacket(c, p, unused);
      } else if p.cmd == SEND_FILE || p.cmd == DOWNLOAD_FILE {
        HandleFile(c, p, extra);
      } else {
        HandleMessage(c, p);
      }
    }
  }
}
