/** Reading and writing sockets (util.c). A read delivers any positive number of the bytes that are
    there, so what is proved holds for every way the network cuts the stream. */
module Sockets {
  import opened Basics
  import opened Wire
  import opened Credentials

  /** One end of a connection: the bytes that will still arrive before the peer closes, and the bytes
      written so far. On a steady connection no read fails and a write takes everything. */
  class Socket {
    const steady: bool
    var incoming: seq<Byte>
    var outgoing: seq<Byte>

    constructor (steady: bool, incoming: seq<Byte>)
      ensures this.steady == steady && this.incoming == incoming && outgoing == []
    {
      this.steady, this.incoming, outgoing := steady, incoming, [];
    }

    /** read(2): some bytes, 0 when the stream is over, or -1 for an error. */
    method Read(n: nat) returns (got: int, chunk: seq<Byte>)
      requires n > 0
      modifies this`incoming
      ensures got == -1 ==> !steady && chunk == [] && incoming == old(incoming)
      ensures got != -1 ==> got == |chunk| <= n && (got == 0 <==> old(incoming) == [])
      ensures old(incoming) == chunk + incoming
    {
      var fails: bool := *;
      if fails && !steady {
        return -1, [];
      }
      if incoming == [] {
        return 0, [];
      }
      assert 1 <= 1 <= n && 1 <= |incoming|;
      var k: nat :| 1 <= k <= n && k <= |incoming|;
      got, chunk := k, incoming[..k];
      incoming := incoming[k..];
    }

    /** write(2): takes any number of the bytes, or fails with -1. */
    method Write(bytes: seq<Byte>) returns (got: int)
      modifies this`outgoing
      ensures -1 <= got <= |bytes| && (steady ==> got == |bytes|)
      ensures outgoing == old(outgoing) + if got == -1 then [] else bytes[..got]
    {
      got := |bytes|;
      if !steady {
        var k: int :| -1 <= k <= |bytes|;
        got := k;
      }
      outgoing := outgoing + if got == -1 then [] else bytes[..got];
    }
  }

  /** A header with the memory behind it that holds the payload. */
  class HeaderBuffer {
    var header: Header
    const payload: array<Byte>

    constructor (header: Header, size: nat)
      ensures this.header == header && fresh(payload) && payload[..] == Zeros(size)
    {
      this.header, payload := header, new Byte[size](_ => 0);
    }
  }

  /** Every byte of the payload is there to be sent. */
  ghost predicate Carries(hdr: HeaderBuffer, p: Packet)
    reads hdr, hdr.payload
  {
    && hdr.header.cmd == p.cmd && hdr.header.gid == p.gid && hdr.header.uid == p.uid
    && hdr.header.len == |p.payload| && |p.payload| <= hdr.payload.Length && hdr.payload[..|p.payload|] == p.payload
  }

  /** create_and_fill_hdr: a packet of zeros with one more zero behind it. Whatever a caller then writes
      into the announced length, the payload is terminated. */
  method CreateAndFillHeader(cmd: Byte, gid: Byte, uid: Uint16, len: nat) returns (hdr: HeaderBuffer)
    requires len + HEADER_SIZE < INT_LIMIT
    ensures fresh(hdr) && fresh(hdr.payload) && Carries(hdr, Packet(cmd, gid, uid, Zeros(len)))
    ensures hdr.payload.Length == len + 1 && hdr.payload[len] == 0
  {
    hdr := new HeaderBuffer(Header(cmd, gid, uid, len), len + 1);
  }

  /** Why one byte more is allocated: with it any payload reads as a text, without it exactly a payload
      that holds a terminator does. */
  lemma {:induction false} SafetyByte(payload: seq<Byte>)
    ensures CString(payload + [0]) == Some(payload[..TextEnd(payload, 0, |payload|)])
    ensures CString(payload).Some? <==> 0 in payload
  {
    var m := TextEnd(payload, 0, |payload|);
    CStringStops(payload[..m], payload[m..] + [0]);
    assert payload + [0] == payload[..m] + (payload[m..] + [0]);
    if m < |payload| {
      CStringStops(payload[..m], payload[m..]);
      assert payload == payload[..m] + payload[m..] && payload[m] in payload;
    } else {
      CStringOfPadded(payload, 0);
      assert payload + Zeros(0) == payload && payload[0..m] == payload;
    }
  }

  /** send_wrapper, reporting how many bytes the write took. After a short write it reads instead of
      writing: the rest is never sent, whatever the status says. */
  method SendWrapper(sock: Socket, bytes: seq<Byte>) returns (status: int, ghost taken: nat)
    requires bytes != []
    modifies sock
    ensures taken <= |bytes| && sock.outgoing == old(sock.outgoing) + bytes[..taken]
    ensures sock.steady ==> taken == |bytes|
    ensures taken == |bytes| ==> status == 0 && sock.incoming == old(sock.incoming)
    ensures status == 0 || status == -1
  {
    var tmp := sock.Write(bytes);
    taken := if tmp == -1 then 0 else tmp;
    if tmp == 0 || tmp == -1 {
      return tmp, taken;
    }
    var sent := tmp;
    while sent < |bytes|
      invariant sent <= |bytes| && sock.outgoing == old(sock.outgoing) + bytes[..taken]
      invariant taken == |bytes| ==> sock.incoming == old(sock.incoming) && sent == taken
    {
      var chunk;
      tmp, chunk := sock.Read(|bytes| - sent);
      if tmp == 0 || tmp == -1 {
        return tmp, taken;
      }
      sent := sent + tmp;
    }
    status := 0;
  }

  /** send_main_header: swaps the header in place and writes the buffer, whose bytes on the wire are the
      first `taken` of the packet's encoding. The peer gets the packet if and only if the write took all;
      0 is returned then, but not only then. */
  method SendMainHeader(hdr: HeaderBuffer, sock: Socket, ghost p: Packet) returns (status: int, ghost taken: nat)
    requires Carries(hdr, p) && Sendable(Plain(p))
    modifies hdr`header, sock
    ensures hdr.header == Swapped(old(hdr.header))
    ensures taken <= |Encode(Plain(p))| && sock.outgoing == old(sock.outgoing) + Encode(Plain(p))[..taken]
    ensures sock.steady ==> taken == |Encode(Plain(p))|
    ensures taken == |Encode(Plain(p))| ==> status == 0 && sock.incoming == old(sock.incoming)
  {
    SwappedImageIsNetwork(hdr.header);
    var len := hdr.header.len;
    hdr.header := hdr.header.(uid := Swap16(hdr.header.uid));
    hdr.header := hdr.header.(len := Swap32(hdr.header.len));
    var failed;
    failed, taken := SendWrapper(sock, Image(hdr.header) + hdr.payload[..len]);
    status := if failed != 0 then 1 else 0;
  }

  /** What the handlers do to answer: allocate, copy the payload in, send. */
  method SendPacket(p: Packet, sock: Socket)
    requires Sendable(Plain(p)) && sock.steady
    modifies sock
    ensures sock.outgoing == old(sock.outgoing) + Encode(Plain(p)) && sock.incoming == old(sock.incoming)
  {
    var hdr := CreateAndFillHeader(p.cmd, p.gid, p.uid, |p.payload|);
    var i := 0;
    while i < |p.payload|
      modifies hdr.payload
      invariant 0 <= i <= |p.payload| && hdr.payload[..i] == p.payload[..i]
    {
      hdr.payload[i] := p.payload[i];
      i := i + 1;
    }
    var status, taken := SendMainHeader(hdr, sock, p);
    assert Encode(Plain(p))[..taken] == Encode(Plain(p));
  }

  /** memcpy of the payload behind a copied header. */
  method Memcpy(copy: HeaderBuffer, packet: HeaderBuffer, ghost p: Packet)
    requires Carries(packet, p) && copy.header == packet.header && copy.payload != packet.payload
    requires copy.payload.Length == packet.header.len
    modifies copy.payload
    ensures Carries(copy, p)
  {
    var i := 0;
    while i < packet.header.len
      invariant 0 <= i <= packet.header.len && copy.payload[..i] == packet.payload[..i]
      invariant packet.payload[..] == old(packet.payload[..])
    {
      copy.payload[i] := packet.payload[i];
      i := i + 1;
    }
  }

  /** The sends of forward_to_group: the packet is kept as it is, and each recipient is sent a copy of
      its own, because sending swaps a header in place. All recipients get the same bytes. */
  method SendCopies(packet: HeaderBuffer, socks: seq<Socket>, ghost p: Packet)
    requires Carries(packet, p) && Sendable(Plain(p))
    requires forall i, j :: 0 <= i < j < |socks| ==> socks[i] != socks[j]
    requires forall i :: 0 <= i < |socks| ==> socks[i].steady
    modifies set s | s in socks
    ensures forall i :: 0 <= i < |socks| ==> socks[i].outgoing == old(socks[i].outgoing) + Encode(Plain(p))
    ensures Carries(packet, p)
  {
    var k := 0;
    while k < |socks|
      invariant 0 <= k <= |socks| && Carries(packet, p)
      invariant forall i :: 0 <= i < k ==> socks[i].outgoing == old(socks[i].outgoing) + Encode(Plain(p))
      invariant forall i :: k <= i < |socks| ==> socks[i].outgoing == old(socks[i].outgoing)
    {
      assert socks[k] in socks;
      var copy := new HeaderBuffer(packet.header, packet.header.len);
      Memcpy(copy, packet, p);
      var status, taken := SendMainHeader(copy, socks[k], p);
      assert Encode(Plain(p))[..taken] == Encode(Plain(p));
      k := k + 1;
    }
  }

  /** send_file writes its header without send_main_header, and swaps its fields itself. */
  method SendFileHeader(sock: Socket, gid: Byte, uid: Uint16, size: Uint32)
    requires sock.steady
    modifies sock`outgoing
    ensures sock.outgoing == old(sock.outgoing) + Network(Header(SEND_FILE, gid, uid, size))
  {
    var hdr := CreateAndFillHeader(SEND_FILE, gid, uid, 0);
    hdr.header := hdr.header.(len := Swap32(size));
    hdr.header := hdr.header.(uid := Swap16(uid));
    ghost var h := Header(SEND_FILE, gid, uid, size);
    assert hdr.header == Swapped(h);
    assert Image(hdr.header) == Network(h) by {
      SwappedImageIsNetwork(h);
    }
    var _ := sock.Write(Image(hdr.header));
  }

  /** The loop of send_file. */
  method SendBody(sock: Socket, file: seq<Byte>)
    requires sock.steady
    modifies sock`outgoing
    ensures sock.outgoing == old(sock.outgoing) + file
  {
    var fileSize, unread := |file|, file;
    while fileSize > 0
      invariant fileSize == |unread| && sock.outgoing + unread == old(sock.outgoing) + file
    {
      var n := if |unread| < 1024 then |unread| else 1024;
      var buff := unread[..n];
      unread := unread[n..];
      fileSize := fileSize - n;
      var _ := sock.Write(buff);
    }
  }

  /** send_file on a steady connection; `file` is the file's contents, or None when it cannot be
      opened. */
  method SendFile(sock: Socket, gid: Byte, uid: Uint16, file: Option<seq<Byte>>) returns (status: int)
    requires sock.steady && (file.Some? ==> |file.value| < INT_LIMIT)
    modifies sock`outgoing
    ensures file.None? ==> status == -1 && sock.outgoing == old(sock.outgoing)
    ensures file.Some? ==> status == 0 && sock.outgoing == old(sock.outgoing) + Encode(File(gid, uid, file.value))
  {
    if file.None? {
      return -1;
    }
    SendFileHeader(sock, gid, uid, |file.value|);
    SendBody(sock, file.value);
    status := 0;
  }

  /** recv_wrapper: 1 with exactly `n` bytes, 0 when the peer closes before that, -1 after an error. */
  method RecvWrapper(sock: Socket, n: nat) returns (status: int, buff: seq<Byte>)
    requires n > 0
    modifies sock`incoming
    ensures status == 1 || status == 0 || (status == -1 && !sock.steady)
    ensures old(sock.incoming) == buff + sock.incoming
    ensures status == 1 <==> |buff| == n
    ensures status == 0 ==> sock.incoming == [] && |buff| < n
    ensures status == -1 ==> |buff| < n
  {
    var tmp;
    tmp, buff := sock.Read(n);
    if tmp == 0 || tmp == -1 {
      return tmp, buff;
    }
    while |buff| < n
      invariant |buff| <= n && old(sock.incoming) == buff + sock.incoming
      decreases n - |buff|
    {
      var chunk;
      tmp, chunk := sock.Read(n - |buff|);
      if tmp == 0 || tmp == -1 {
        return tmp, buff;
      }
      buff := buff + chunk;
    }
    status := 1;
  }

  /** read_main_header on a steady connection; None stands for NULL. */
  method ReadMainHeader(sock: Socket) returns (packet: Option<(Header, seq<Byte>)>)
    requires sock.steady && (|sock.incoming| >= HEADER_SIZE ==> HeaderOf(sock.incoming).len < INT_LIMIT)
    modifies sock`incoming
    ensures match TakeHeader(old(sock.incoming))
            case None => packet.None? && sock.incoming == []
            case Some((h, payload, rest)) => packet == Some((h, payload)) && sock.incoming == rest
  {
    ghost var s := old(sock.incoming);
    var status, bytes := RecvWrapper(sock, HEADER_SIZE);
    if status == 0 {
      return None;
    }
    assert bytes == s[..HEADER_SIZE] && sock.incoming == s[HEADER_SIZE..];
    var basic := FromImage(bytes);
    basic := basic.(uid := Swap16(basic.uid));
    basic := basic.(len := Swap32(basic.len));
    var payload: seq<Byte> := [];
    if basic.len != 0 && basic.cmd != SEND_FILE {
      status, payload := RecvWrapper(sock, basic.len);
      if status == 0 {
        return None;
      }
      assert s[HEADER_SIZE..] == payload + sock.incoming;
      assert payload == s[HEADER_SIZE..HEADER_SIZE + basic.len];
      assert sock.incoming == s[HEADER_SIZE + basic.len..];
    }
    packet := Some((basic, payload));
  }

  /** receive_to_file, returning what it writes. On a stream that ends early the loop would not end. */
  method ReceiveToFile(sock: Socket, len: nat) returns (file: seq<Byte>)
    requires sock.steady && len <= |sock.incoming|
    modifies sock`incoming
    ensures file == old(sock.incoming)[..len] && sock.incoming == old(sock.incoming)[len..]
  {
    var byteToRead := len;
    file := [];
    while byteToRead > 0
      invariant 0 <= byteToRead == len - |file| <= |sock.incoming| && old(sock.incoming) == file + sock.incoming
    {
      var recvBytes, buff := sock.Read(if byteToRead < 1024 then byteToRead else 1024);
      byteToRead := byteToRead - recvBytes;
      file := file + buff;
    }
  }

  lemma HeaderFits(m: Message, rest: seq<Byte>)
    requires Sendable(m)
    ensures var s := Encode(m) + rest; |s| >= HEADER_SIZE && HeaderOf(s).len < INT_LIMIT
  {
    TakeHeaderOfEncode(m, rest);
  }

  /** One round of the peer's loop: a header, and the file after a SEND_FILE header. */
  method ReceiveMessage(sock: Socket, ghost left: seq<Message>) returns (m: Option<Message>)
    requires sock.steady && AllSendable(left) && sock.incoming == EncodeAll(left)
    modifies sock`incoming
    ensures left == [] ==> m == None && sock.incoming == []
    ensures left != [] ==> m == Some(left[0]) && sock.incoming == EncodeAll(left[1..])
  {
    if left != [] {
      TakeHeaderOfEncode(left[0], EncodeAll(left[1..]));
      HeaderFits(left[0], EncodeAll(left[1..]));
    }
    var packet := ReadMainHeader(sock);
    if packet.None? {
      return None;
    }
    var (h, payload) := packet.value;
    if h.cmd == SEND_FILE {
      ghost var file, rest := left[0].body, EncodeAll(left[1..]);
      assert (file + rest)[..|file|] == file && (file + rest)[|file|..] == rest;
      var body := ReceiveToFile(sock, h.len);
      m := Some(File(h.gid, h.uid, body));
    } else {
      m := Some(Plain(Packet(h.cmd, h.gid, h.uid, payload)));
    }
  }

  /** The peer's loop. However the stream is cut, it yields exactly the messages that were encoded. */
  method ReceiveAll(sock: Socket, ghost sent: seq<Message>) returns (ms: seq<Message>)
    requires sock.steady && AllSendable(sent) && sock.incoming == EncodeAll(sent)
    modifies sock`incoming
    ensures ms == sent && sock.incoming == []
  {
    ms := [];
    ghost var left := sent;
    while true
      invariant sent == ms + left && AllSendable(left) && sock.incoming == EncodeAll(left)
      decreases |left|
    {
      var m := ReceiveMessage(sock, left);
      if m.None? {
        return;
      }
      assert left == [m.value] + left[1..];
      ms, left := ms + [m.value], left[1..];
    }
  }

  lemma EncodeAllAppend(ms: seq<Message>, m: Message)
    requires AllSendable(ms) && Sendable(m)
    ensures EncodeAll(ms + [m]) == EncodeAll(ms) + Encode(m)
  {
    if ms == [] {
      assert ms + [m] == [m] && [m][1..] == [];
    } else {
      assert (ms + [m])[1..] == ms[1..] + [m];
      EncodeAllAppend(ms[1..], m);
    }
  }

  lemma EncodeOneMore(ms: seq<Message>, k: nat)
    requires AllSendable(ms) && k < |ms|
    ensures EncodeAll(ms[..k + 1]) == EncodeAll(ms[..k]) + Encode(ms[k])
  {
    assert ms[..k + 1] == ms[..k] + [ms[k]];
    EncodeAllAppend(ms[..k], ms[k]);
  }

  method SendMessage(m: Message, sock: Socket)
    requires Sendable(m) && sock.steady
    modifies sock
    ensures sock.outgoing == old(sock.outgoing) + Encode(m)
  {
    match m
    case Plain(p) => SendPacket(p, sock);
    case File(gid, uid, body) => var _ := SendFile(sock, gid, uid, Some(body));
  }

  /** Sends packets and files one after the other over one connection. */
  method SendAll(ms: seq<Message>, sock: Socket)
    requires AllSendable(ms) && sock.steady
    modifies sock
    ensures sock.outgoing == old(sock.outgoing) + EncodeAll(ms)
  {
    var k := 0;
    ghost var done: seq<Byte> := [];
    while k < |ms|
      invariant 0 <= k <= |ms| && done == EncodeAll(ms[..k]) && sock.outgoing == old(sock.outgoing) + done
    {
      EncodeOneMore(ms, k);
      SendMessage(ms[k], sock);
      ConcatAssociates(old(sock.outgoing), done, Encode(ms[k]));
      k, done := k + 1, done + Encode(ms[k]);
    }
    assert ms[..k] == ms;
  }

  /** Over a steady connection, what one side sends with send_main_header and send_file the other side's loop
      receives, in order and nothing else, however reads cut the stream. */
  method Transmit(ms: seq<Message>) returns (received: seq<Message>)
    requires AllSendable(ms)
    ensures received == ms
  {
    var sender := new Socket(true, []);
    SendAll(ms, sender);
    assert sender.outgoing == EncodeAll(ms);
    var receiver := new Socket(true, sender.outgoing);
    received := ReceiveAll(receiver, ms);
  }
}
