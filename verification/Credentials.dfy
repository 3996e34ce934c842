/** The "username:password" payload (util.c): filled by the client, taken apart by the server into two
    zeroed buffers. */
module Credentials {
  import opened Basics
  import opened Wire

  const COLON: Byte := 58
  const MAX_CHAR_USERID := 8
  const MAX_CHAR_USERPASS := 128

  /** The text of a buffer read as a C string; None when no terminator is inside the buffer. */
  function CString(buffer: seq<Byte>): Option<seq<Byte>> {
    if buffer == [] then None
    else if buffer[0] == 0 then Some([])
    else match CString(buffer[1..])
         case None => None
         case Some(s) => Some([buffer[0]] + s)
  }

  function Zeros(n: nat): (z: seq<Byte>)
    ensures |z| == n
  {
    seq(n, i => 0)
  }

  /** A C string fits its buffer with the terminator exactly when it is shorter than the buffer. */
  lemma {:induction false} CStringOfPadded(s: seq<Byte>, n: nat)
    requires 0 !in s
    ensures CString(s + Zeros(n)) == if n > 0 then Some(s) else None
  {
    if s == [] {
      assert s + Zeros(n) == Zeros(n);
    } else {
      assert s[0] in s && [s[0]] + s[1..] == s;
      CStringOfPadded(s[1..], n);
      assert (s + Zeros(n))[1..] == s[1..] + Zeros(n);
    }
  }

  /** The text ends at the first terminator, whatever follows. */
  lemma {:induction false} CStringStops(s: seq<Byte>, rest: seq<Byte>)
    requires 0 !in s && rest != [] && rest[0] == 0
    ensures CString(s + rest) == Some(s)
  {
    if s == [] {
      assert s + rest == rest;
    } else {
      assert s[0] in s && [s[0]] + s[1..] == s;
      CStringStops(s[1..], rest);
      assert (s + rest)[1..] == s[1..] + rest;
    }
  }

  /** The length of the text from `i` on within the first `n` bytes. */
  function TextEnd(src: seq<Byte>, i: nat, n: nat): (m: nat)
    requires i <= n <= |src|
    ensures i <= m <= n && 0 !in src[i..m] && (m < n ==> src[m] == 0)
    decreases n - i
  {
    if i == n || src[i] == 0 then i
    else
      var m := TextEnd(src, i + 1, n);
      assert src[i..m] == [src[i]] + src[i + 1..m];
      m
  }

  /** What strncpy writes: the source up to its terminator, padded with zeros to `n` bytes. */
  function StrncpyBytes(src: seq<Byte>, n: nat): (r: seq<Byte>)
    requires n <= |src|
    ensures |r| == n && (0 !in src[..n] ==> r == src[..n])
  {
    var m := TextEnd(src, 0, n);
    assert m < n ==> src[m] in src[..n];
    src[..m] + Zeros(n - m)
  }

  method Strncpy(dest: array<Byte>, src: seq<Byte>, n: nat)
    requires n <= dest.Length && n <= |src|
    modifies dest
    ensures dest[..] == StrncpyBytes(src, n) + old(dest[n..])
  {
    var i := 0;
    while i < n && src[i] != 0
      invariant 0 <= i <= n && TextEnd(src, 0, n) == TextEnd(src, i, n)
      invariant dest[..i] == src[..i] && dest[n..] == old(dest[n..])
    {
      dest[i] := src[i];
      i := i + 1;
    }
    ghost var m := i;
    while i < n
      invariant m <= i <= n && dest[..i] == src[..m] + Zeros(i - m)
      invariant dest[n..] == old(dest[n..])
    {
      dest[i] := 0;
      i := i + 1;
    }
  }

  /** fill_username_password */
  function FillUsernamePassword(name: seq<Byte>, password: seq<Byte>): seq<Byte> {
    name + [COLON] + password
  }

  /** strchr(payload, ':') */
  function FirstColon(payload: seq<Byte>): (d: nat)
    ensures d <= |payload| && forall i :: 0 <= i < d ==> payload[i] != COLON
    ensures d < |payload| ==> payload[d] == COLON
  {
    if payload == [] || payload[0] == COLON then 0 else 1 + FirstColon(payload[1..])
  }

  /** strchr finds a ':' in the payload: the code does not check that it does. */
  predicate HasColon(payload: seq<Byte>) {
    FirstColon(payload) < |payload| && 0 !in payload[..FirstColon(payload)]
  }

  /** The two buffers and the status that parse_username_pw leaves, starting from zeroed buffers. */
  datatype Parsed = Parsed(status: int, name: seq<Byte>, password: seq<Byte>)

  /** The length check of parse_username_pw. */
  predicate Accepted(payload: seq<Byte>) {
    HasColon(payload) && FirstColon(payload) <= MAX_CHAR_USERID
    && |payload| - FirstColon(payload) - 1 <= MAX_CHAR_USERPASS
  }

  function Parse(payload: seq<Byte>): Parsed
    requires HasColon(payload)
  {
    var d := FirstColon(payload);
    var pwLen := |payload| - d - 1;
    if !Accepted(payload) then Parsed(-1, Zeros(MAX_CHAR_USERID), Zeros(MAX_CHAR_USERPASS))
    else Parsed(0, StrncpyBytes(payload, d) + Zeros(MAX_CHAR_USERID - d),
                   StrncpyBytes(payload[d + 1..], pwLen) + Zeros(MAX_CHAR_USERPASS - pwLen))
  }

  /** parse_username_pw */
  method ParseUsernamePw(destName: array<Byte>, destPassword: array<Byte>, payload: seq<Byte>) returns (status: int)
    requires destName != destPassword && HasColon(payload)
    requires destName[..] == Zeros(MAX_CHAR_USERID) && destPassword[..] == Zeros(MAX_CHAR_USERPASS)
    modifies destName, destPassword
    ensures Parse(payload) == Parsed(status, destName[..], destPassword[..])
  {
    var delim := 0;
    while payload[delim] != COLON
      invariant delim <= FirstColon(payload)
      decreases |payload| - delim
    {
      assert delim < FirstColon(payload);
      delim := delim + 1;
    }
    var pwLen := |payload| - delim - 1;
    if delim > MAX_CHAR_USERID || pwLen > MAX_CHAR_USERPASS {
      return -1;
    }
    Strncpy(destName, payload, delim);
    Strncpy(destPassword, payload[delim + 1..], pwLen);
    status := 0;
  }

  /** What a zeroed buffer reads as after strncpy put `n` bytes of text into it. */
  lemma BufferText(src: seq<Byte>, n: nat, size: nat)
    requires n <= |src| && n <= size && 0 !in src[..n]
    ensures CString(StrncpyBytes(src, n) + Zeros(size - n)) == if n < size then Some(src[..n]) else None
  {
    CStringOfPadded(src[..n], size - n);
  }

  /** What the two buffers read as, when the lengths are accepted. */
  lemma ParsedName(payload: seq<Byte>)
    requires Accepted(payload)
    ensures var d := FirstColon(payload);
            CString(Parse(payload).name) == if d < MAX_CHAR_USERID then Some(payload[..d]) else None
  {
    BufferText(payload, FirstColon(payload), MAX_CHAR_USERID);
  }

  lemma ParsedPassword(payload: seq<Byte>)
    requires Accepted(payload) && 0 !in payload[FirstColon(payload) + 1..]
    ensures var password := payload[FirstColon(payload) + 1..];
            CString(Parse(payload).password) == if |password| < MAX_CHAR_USERPASS then Some(password) else None
  {
    var password := payload[FirstColon(payload) + 1..];
    assert password[..|password|] == password;
    BufferText(password, |password|, MAX_CHAR_USERPASS);
  }

  /** The first ':' of a filled payload is the separator, unless the name holds one. */
  lemma ColonInPayload(name: seq<Byte>, password: seq<Byte>)
    requires 0 !in name && 0 !in password
    ensures var payload := FillUsernamePassword(name, password);
            var d := FirstColon(payload);
            && d <= |name| && HasColon(payload) && payload[..d] == name[..d]
            && (d == |name| <==> COLON !in name)
            && 0 !in payload[d + 1..] && (d == |name| ==> payload[d + 1..] == password)
  {
    var payload := FillUsernamePassword(name, password);
    var d := FirstColon(payload);
    assert payload[|name|] == COLON;
    assert payload[..d] == name[..d];
    if d == |name| {
      assert forall i :: 0 <= i < |name| ==> name[i] == payload[i];
    } else {
      assert payload[d] == name[d];
    }
    assert forall i :: 0 <= i < |payload| ==> payload[i] != 0;
  }

  lemma EmptyTexts()
    ensures CString(Zeros(MAX_CHAR_USERID)) == Some([]) && CString(Zeros(MAX_CHAR_USERPASS)) == Some([])
  {
  }

  /** The server reads back what the client filled in, for exactly these names and passwords. A name
      of eight characters passes the length check but leaves no room for its terminator. */
  lemma CredentialsRoundTripIff(name: seq<Byte>, password: seq<Byte>)
    requires 0 !in name && 0 !in password
    ensures var payload := FillUsernamePassword(name, password);
            && HasColon(payload)
            && (CString(Parse(payload).name) == Some(name) && CString(Parse(payload).password) == Some(password)
                <==> |name| < MAX_CHAR_USERID && |password| < MAX_CHAR_USERPASS && COLON !in name)
  {
    var payload := FillUsernamePassword(name, password);
    var d := FirstColon(payload);
    ColonInPayload(name, password);
    if Accepted(payload) {
      ParsedName(payload);
      ParsedPassword(payload);
      assert d == |name| ==> payload[..d] == name;
      assert d < |name| ==> |payload[..d]| != |name|;
    } else {
      EmptyTexts();
    }
  }

  /** A name with a ':' never reads back. */
  lemma ColonLeavesRest(name: seq<Byte>, password: seq<Byte>)
    requires 0 !in name && 0 !in password && COLON in name
    ensures var payload := FillUsernamePassword(name, password);
            HasColon(payload) && CString(Parse(payload).name) != Some(name)
  {
    var payload := FillUsernamePassword(name, password);
    ColonInPayload(name, password);
    if Accepted(payload) {
      ParsedName(payload);
      assert |payload[..FirstColon(payload)]| < |name|;
    } else {
      EmptyTexts();
    }
  }

  /** A name for each excluded case, and any password that is too long. The name of eight characters is
      accepted, and its buffer then holds no terminator; the name "a:b" reads as "a". */
  lemma CredentialsThatDoNotReadBack(password: seq<Byte>, long: seq<Byte>)
    requires 0 !in password && |password| < MAX_CHAR_USERPASS && 0 !in long && |long| == MAX_CHAR_USERPASS
    ensures var payload := FillUsernamePassword([97, 98, 99, 100, 101, 102, 103, 104], password);
            HasColon(payload) && Parse(payload).status == 0 && CString(Parse(payload).name) == None
    ensures var payload := FillUsernamePassword([97, COLON, 98], password);
            HasColon(payload) && CString(Parse(payload).name) != Some([97, COLON, 98])
    ensures var payload := FillUsernamePassword([97], long);
            HasColon(payload) && Parse(payload).status == 0 && CString(Parse(payload).password) == None
  {
    var eight := [97, 98, 99, 100, 101, 102, 103, 104];
    ColonInPayload(eight, password);
    ParsedName(FillUsernamePassword(eight, password));
    ColonInPayload([97, COLON, 98], password);
    assert [97, COLON, 98][1] == COLON;
    ColonLeavesRest([97, COLON, 98], password);
    ColonInPayload([97], long);
    ParsedPassword(FillUsernamePassword([97], long));
  }

  /** A name of more than eight characters or a password of more than 128 is refused with -1, and the buffers
      stay as they were. */
  lemma TooLongIsRefused(name: seq<Byte>, password: seq<Byte>)
    requires 0 !in name && 0 !in password && COLON !in name && (|name| > 8 || |password| > 128)
    ensures var payload := FillUsernamePassword(name, password);
            HasColon(payload) && Parse(payload) == Parsed(-1, Zeros(8), Zeros(128))
  {
    ColonInPayload(name, password);
  }
}
