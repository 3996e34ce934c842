/** The wire format of util.c and msg_header.h: an 8-byte header in network byte order, then the
    payload; a SEND_FILE header is followed by the file, which the reader takes separately. */
module Wire {
  import opened Basics

  type Byte = b: int | 0 <= b < 0x100
  type Uint16 = u: int | 0 <= u < 0x1_0000
  type Uint32 = u: int | 0 <= u < 0x1_0000_0000

  const USR_CREATE: Byte := 1
  const USR_LOGIN: Byte := 2
  const SEND_CHAT: Byte := 3
  const SEND_FILE: Byte := 4
  const DOWNLOAD_FILE: Byte := 5
  const INVITE: Byte := 6
  const INVITE_RESP: Byte := 7
  const ACTIVE_LIST: Byte := 8
  const CREATE_GROUP: Byte := 9

  const HEADER_SIZE := 8

  /** Lengths are handled as C ints; from here on they would turn negative. */
  const INT_LIMIT := 0x8000_0000

  /** The fixed part of mainhdr_t. */
  datatype Header = Header(cmd: Byte, gid: Byte, uid: Uint16, len: Uint32)

  /** A header with its payload. */
  datatype Packet = Packet(cmd: Byte, gid: Byte, uid: Uint16, payload: seq<Byte>)

  /** What one side sends: a packet, or a file behind a SEND_FILE header. */
  datatype Message = Plain(packet: Packet) | File(gid: Byte, uid: Uint16, body: seq<Byte>)

  ghost predicate Sendable(m: Message) {
    match m
    case Plain(p) => p.cmd != SEND_FILE && |p.payload| + HEADER_SIZE < INT_LIMIT
    case File(_, _, body) => |body| < INT_LIMIT
  }

  lemma ConcatAssociates(a: seq<Byte>, b: seq<Byte>, c: seq<Byte>)
    ensures a + (b + c) == a + b + c
  {
  }

  // ---------------------------------------------------------------------------------------------
  // Byte order. The host stores integers low byte first; htons, htonl and their inverses swap.
  // ---------------------------------------------------------------------------------------------

  /** The integer whose bytes, low byte first, are these. */
  function Join(bytes: seq<Byte>): (u: nat)
  {
    if bytes == [] then 0 else bytes[0] + 0x100 * Join(bytes[1..])
  }

  /** The `n` low bytes of an integer, low byte first. */
  function Split(u: nat, n: nat): (bytes: seq<Byte>)
    ensures |bytes| == n
  {
    if n == 0 then [] else [u % 0x100] + Split(u / 0x100, n - 1)
  }

  function Reverse(bytes: seq<Byte>): (r: seq<Byte>)
    ensures |r| == |bytes|
    ensures forall i :: 0 <= i < |bytes| ==> r[i] == bytes[|bytes| - 1 - i]
  {
    if bytes == [] then [] else Reverse(bytes[1..]) + [bytes[0]]
  }

  lemma ReverseTwice(bytes: seq<Byte>)
    ensures Reverse(Reverse(bytes)) == bytes
  {
  }

  /** 256 to the power `n`. */
  function Limit(n: nat): (l: nat)
    ensures l >= 1
    ensures n == 2 ==> l == 0x1_0000
    ensures n == 4 ==> l == 0x1_0000_0000
  {
    if n == 0 then 1
    else
      assert n == 2 ==> Limit(1) == 0x100;
      assert n == 4 ==> Limit(3) == 0x100_0000 by { if n == 4 { assert Limit(2) == 0x1_0000; } }
      0x100 * Limit(n - 1)
  }

  lemma {:induction false} JoinIsBounded(bytes: seq<Byte>)
    ensures Join(bytes) < Limit(|bytes|)
  {
    if bytes != [] {
      JoinIsBounded(bytes[1..]);
    }
  }

  lemma {:induction false} SplitOfJoin(bytes: seq<Byte>)
    ensures Split(Join(bytes), |bytes|) == bytes
  {
    if bytes != [] {
      var rest := Join(bytes[1..]);
      assert (bytes[0] + 0x100 * rest) / 0x100 == rest && (bytes[0] + 0x100 * rest) % 0x100 == bytes[0];
      SplitOfJoin(bytes[1..]);
    }
  }

  lemma {:induction false} JoinOfSplit(u: nat, n: nat)
    requires u < Limit(n)
    ensures Join(Split(u, n)) == u
    decreases n
  {
    if n > 0 {
      JoinOfSplit(u / 0x100, n - 1);
      assert Split(u, n)[1..] == Split(u / 0x100, n - 1);
    }
  }

  /** htons and ntohs. */
  function Swap16(u: Uint16): Uint16 {
    JoinIsBounded(Reverse(Split(u, 2)));
    Join(Reverse(Split(u, 2)))
  }

  /** htonl and ntohl. */
  function Swap32(u: Uint32): Uint32 {
    JoinIsBounded(Reverse(Split(u, 4)));
    Join(Reverse(Split(u, 4)))
  }

  /** A swapped integer lies in memory as the reversed bytes, and swapping again restores it. */
  lemma SwapReverses(u: Uint16, v: Uint32)
    ensures Split(Swap16(u), 2) == Reverse(Split(u, 2)) && Split(Swap32(v), 4) == Reverse(Split(v, 4))
    ensures Swap16(Swap16(u)) == u && Swap32(Swap32(v)) == v
  {
    SplitOfJoin(Reverse(Split(u, 2)));
    SplitOfJoin(Reverse(Split(v, 4)));
    ReverseTwice(Split(u, 2));
    ReverseTwice(Split(v, 4));
    JoinOfSplit(u, 2);
    JoinOfSplit(v, 4);
  }

  /** The header as it lies in the host's memory. */
  function Image(h: Header): (bytes: seq<Byte>)
    ensures |bytes| == HEADER_SIZE
  {
    [h.cmd, h.gid] + Split(h.uid, 2) + Split(h.len, 4)
  }

  /** The header that lies in memory as these bytes. */
  function FromImage(bytes: seq<Byte>): Header
    requires |bytes| == HEADER_SIZE
  {
    JoinIsBounded(bytes[2..4]);
    JoinIsBounded(bytes[4..8]);
    Header(bytes[0], bytes[1], Join(bytes[2..4]), Join(bytes[4..8]))
  }

  /** The header in network byte order: high byte first. */
  function Network(h: Header): (bytes: seq<Byte>)
    ensures |bytes| == HEADER_SIZE
  {
    [h.cmd, h.gid] + Reverse(Split(h.uid, 2)) + Reverse(Split(h.len, 4))
  }

  lemma NetworkIsBigEndian(h: Header)
    ensures Network(h)[..2] == [h.cmd, h.gid]
    ensures Network(h)[2..4] == [h.uid / 0x100, h.uid % 0x100]
    ensures Network(h)[4..8] ==
      [h.len / 0x100 / 0x100 / 0x100, h.len / 0x100 / 0x100 % 0x100, h.len / 0x100 % 0x100, h.len % 0x100]
  {
    assert Split(h.uid, 2) == [h.uid % 0x100, h.uid / 0x100];
    var a, b, c := h.len / 0x100, h.len / 0x100 / 0x100, h.len / 0x100 / 0x100 / 0x100;
    assert Split(c, 1) == [c];
    assert Split(b, 2) == [b % 0x100, c];
    assert Split(a, 3) == [a % 0x100, b % 0x100, c];
    assert Split(h.len, 4) == [h.len % 0x100, a % 0x100, b % 0x100, c];
  }

  function Swapped(h: Header): Header {
    h.(uid := Swap16(h.uid), len := Swap32(h.len))
  }

  /** Swapping in place before the write, and after the read, goes through network order. */
  lemma SwappedImageIsNetwork(h: Header)
    ensures Image(Swapped(h)) == Network(h) && Swapped(FromImage(Network(h))) == h
  {
    SwapReverses(h.uid, h.len);
    assert Network(h)[2..4] == Reverse(Split(h.uid, 2)) && Network(h)[4..8] == Reverse(Split(h.len, 4));
  }

  /** `send_main_header` leaves the swapped header behind, so sending the same buffer again puts the
      host's byte order on the wire. The second header is right exactly when swapping changes nothing;
      hence a fresh copy for each recipient. */
  lemma ResendIsRightIff(h: Header)
    ensures Image(Swapped(Swapped(h))) == Network(h) <==> Swap16(h.uid) == h.uid && Swap32(h.len) == h.len
  {
    SwapReverses(h.uid, h.len);
    JoinOfSplit(h.uid, 2);
    JoinOfSplit(h.len, 4);
    assert Image(h)[2..4] == Split(h.uid, 2) && Image(h)[4..8] == Split(h.len, 4);
    assert Network(h)[2..4] == Reverse(Split(h.uid, 2)) && Network(h)[4..8] == Reverse(Split(h.len, 4));
  }

  lemma SwapOfOne()
    ensures Swap16(1) == 256
  {
    assert Split(1, 2) == [1] + Split(0, 1) && Split(0, 1) == [0];
    assert Reverse([1, 0]) == [0, 1];
    assert Join([0, 1]) == 0x100 * Join([1]) && Join([1]) == 1;
  }

  /** A second send of a buffer with uid 1 says uid 256. */
  lemma SecondSendScrambles(h: Header)
    requires h.uid == 1
    ensures Image(Swapped(Swapped(h))) != Network(h)
    ensures Image(Swapped(Swapped(h))) == Network(Swapped(h)) && Swapped(h).uid == 256
  {
    ResendIsRightIff(h);
    SwappedImageIsNetwork(Swapped(h));
    SwapOfOne();
  }

  // ---------------------------------------------------------------------------------------------
  // Encoding and decoding
  // ---------------------------------------------------------------------------------------------

  function Encode(m: Message): seq<Byte>
    requires Sendable(m)
  {
    match m
    case Plain(p) => Network(Header(p.cmd, p.gid, p.uid, |p.payload|)) + p.payload
    case File(gid, uid, body) => Network(Header(SEND_FILE, gid, uid, |body|)) + body
  }

  ghost predicate AllSendable(ms: seq<Message>) {
    forall i :: 0 <= i < |ms| ==> Sendable(ms[i])
  }

  function EncodeAll(ms: seq<Message>): seq<Byte>
    requires AllSendable(ms)
  {
    if ms == [] then [] else Encode(ms[0]) + EncodeAll(ms[1..])
  }

  function HeaderOf(s: seq<Byte>): Header
    requires |s| >= HEADER_SIZE
  {
    Swapped(FromImage(s[..HEADER_SIZE]))
  }

  /** What read_main_header takes from a stream: a header, its payload unless it announces a file, and
      what remains. None when the stream ends first. */
  function TakeHeader(s: seq<Byte>): Option<(Header, seq<Byte>, seq<Byte>)> {
    if |s| < HEADER_SIZE then None
    else
      var h := HeaderOf(s);
      if h.len == 0 || h.cmd == SEND_FILE then Some((h, [], s[HEADER_SIZE..]))
      else if |s| < HEADER_SIZE + h.len then None
      else Some((h, s[HEADER_SIZE..HEADER_SIZE + h.len], s[HEADER_SIZE + h.len..]))
  }

  lemma TakeHeaderOfBytes(h: Header, tail: seq<Byte>, rest: seq<Byte>)
    requires h.len == |tail|
    ensures TakeHeader(Network(h) + tail + rest) ==
            if h.cmd == SEND_FILE then Some((h, [], tail + rest)) else Some((h, tail, rest))
  {
    var s := Network(h) + tail + rest;
    assert s[..HEADER_SIZE] == Network(h) && s[HEADER_SIZE..] == tail + rest;
    SwappedImageIsNetwork(h);
    assert s[HEADER_SIZE..HEADER_SIZE + h.len] == tail && s[HEADER_SIZE + h.len..] == rest;
    if tail == [] {
      assert tail + rest == rest;
    }
  }

  /** Reading what was encoded gives it back and leaves the rest of the stream. */
  lemma TakeHeaderOfEncode(m: Message, rest: seq<Byte>)
    requires Sendable(m)
    ensures TakeHeader(Encode(m) + rest) ==
            match m
            case Plain(p) => Some((Header(p.cmd, p.gid, p.uid, |p.payload|), p.payload, rest))
            case File(gid, uid, body) => Some((Header(SEND_FILE, gid, uid, |body|), [], body + rest))
  {
    match m
    case Plain(p) => TakeHeaderOfBytes(Header(p.cmd, p.gid, p.uid, |p.payload|), p.payload, rest);
    case File(gid, uid, body) => TakeHeaderOfBytes(Header(SEND_FILE, gid, uid, |body|), body, rest);
  }

  lemma SameHead(m: Message, n: Message, r: seq<Byte>, s: seq<Byte>)
    requires Sendable(m) && Sendable(n) && Encode(m) + r == Encode(n) + s
    ensures m == n && r == s
  {
    TakeHeaderOfEncode(m, r);
    TakeHeaderOfEncode(n, s);
    if m.File? {
      assert (m.body + r)[..|m.body|] == m.body && (n.body + s)[..|n.body|] == n.body;
      assert (m.body + r)[|m.body|..] == r && (n.body + s)[|n.body|..] == s;
    }
  }

  /** Two different sequences of messages never give one stream. */
  lemma {:induction false} EncodingIsInjective(ms: seq<Message>, ns: seq<Message>)
    requires AllSendable(ms) && AllSendable(ns) && EncodeAll(ms) == EncodeAll(ns)
    ensures ms == ns
  {
    if ms != [] && ns != [] {
      TakeHeaderOfEncode(ms[0], EncodeAll(ms[1..]));
      TakeHeaderOfEncode(ns[0], EncodeAll(ns[1..]));
      SameHead(ms[0], ns[0], EncodeAll(ms[1..]), EncodeAll(ns[1..]));
      EncodingIsInjective(ms[1..], ns[1..]);
    }
  }
}
