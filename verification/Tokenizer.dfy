/** `split` of util.c: one pass counts the tokens, one allocates a buffer for each, one fills them. */
module Tokenizer {
  import opened Wire

  /** The stretches between occurrences of `c`, at least one. */
  function Tokens(s: seq<Byte>, c: Byte): (ts: seq<seq<Byte>>)
    ensures ts != []
  {
    if s == [] then [[]]
    else
      var ts, x := Tokens(s[..|s| - 1], c), s[|s| - 1];
      if x == c then ts + [[]] else ts[..|ts| - 1] + [ts[|ts| - 1] + [x]]
  }

  function JoinTokens(ts: seq<seq<Byte>>, c: Byte): seq<Byte>
    requires ts != []
  {
    if |ts| == 1 then ts[0] else JoinTokens(ts[..|ts| - 1], c) + [c] + ts[|ts| - 1]
  }

  function Occurrences(s: seq<Byte>, c: Byte): nat {
    if s == [] then 0 else Occurrences(s[..|s| - 1], c) + if s[|s| - 1] == c then 1 else 0
  }

  ghost predicate FreeOf(ts: seq<seq<Byte>>, c: Byte) {
    forall i :: 0 <= i < |ts| ==> c !in ts[i]
  }

  lemma ExtendLast(ts: seq<seq<Byte>>, c: Byte, x: Byte)
    requires ts != []
    ensures JoinTokens(ts[..|ts| - 1] + [ts[|ts| - 1] + [x]], c) == JoinTokens(ts, c) + [x]
  {
    var ts' := ts[..|ts| - 1] + [ts[|ts| - 1] + [x]];
    assert ts'[..|ts| - 1] == ts[..|ts| - 1];
  }

  lemma JoinSnoc(ts: seq<seq<Byte>>, c: Byte, x: Byte)
    requires ts != [] && FreeOf(ts, c)
    ensures var ts' := if x == c then ts + [[]] else ts[..|ts| - 1] + [ts[|ts| - 1] + [x]];
            FreeOf(ts', c) && JoinTokens(ts', c) == JoinTokens(ts, c) + [x]
  {
    if x == c {
      assert (ts + [[]])[..|ts|] == ts;
    } else {
      ExtendLast(ts, c, x);
    }
  }

  /** Splitting loses nothing: the tokens are free of the delimiter, one more than it occurs, and
      joining them gives the string back. */
  lemma {:induction false} JoinOfTokens(s: seq<Byte>, c: Byte)
    ensures var ts := Tokens(s, c);
            FreeOf(ts, c) && |ts| == Occurrences(s, c) + 1 && JoinTokens(ts, c) == s
  {
    if s != [] {
      var s0, x := s[..|s| - 1], s[|s| - 1];
      JoinOfTokens(s0, c);
      assert s == s0 + [x];
      JoinSnoc(Tokens(s0, c), c, x);
    }
  }

  /** One more character either closes the last token or extends it. */
  lemma TokensSnoc(s: seq<Byte>, c: Byte, x: Byte)
    ensures var ts := Tokens(s, c);
            Tokens(s + [x], c) == if x == c then ts + [[]] else ts[..|ts| - 1] + [ts[|ts| - 1] + [x]]
  {
    assert (s + [x])[..|s|] == s;
  }

  /** Splitting the join gives the pieces. */
  ghost predicate Recovered(ts: seq<seq<Byte>>, c: Byte) {
    ts != [] && Tokens(JoinTokens(ts, c), c) == ts
  }

  lemma OneMoreByte(front: seq<seq<Byte>>, w: seq<Byte>, c: Byte, x: Byte)
    requires x != c && Recovered(front + [w], c)
    ensures Recovered(front + [w + [x]], c)
  {
    var ts := front + [w];
    assert ts[..|ts| - 1] == front && ts[|ts| - 1] == w;
    ExtendLast(ts, c, x);
    TokensSnoc(JoinTokens(ts, c), c, x);
  }

  lemma {:induction false} OneMoreWord(front: seq<seq<Byte>>, w: seq<Byte>, c: Byte)
    requires c !in w && Recovered(front + [[]], c)
    ensures Recovered(front + [w], c)
  {
    if w != [] {
      var n := |w| - 1;
      OneMoreWord(front, w[..n], c);
      assert w[n] in w;
      OneMoreByte(front, w[..n], c, w[n]);
      assert w[..n] + [w[n]] == w;
    }
  }

  lemma OneMoreDelimiter(front: seq<seq<Byte>>, c: Byte)
    requires Recovered(front, c)
    ensures Recovered(front + [[]], c)
  {
    assert (front + [[]])[..|front|] == front;
    assert JoinTokens(front + [[]], c) == JoinTokens(front, c) + [c];
    TokensSnoc(JoinTokens(front, c), c, c);
  }

  /** The tokens are the only way to cut a string into pieces free of the delimiter. */
  lemma {:induction false} TokensOfJoin(ts: seq<seq<Byte>>, c: Byte)
    requires ts != [] && FreeOf(ts, c)
    ensures Tokens(JoinTokens(ts, c), c) == ts
  {
    var front, w := ts[..|ts| - 1], ts[|ts| - 1];
    if front == [] {
      assert front + [[]] == [[]];
      assert Recovered([[]], c);
    } else {
      TokensOfJoin(front, c);
      OneMoreDelimiter(front, c);
    }
    OneMoreWord(front, w, c);
    assert ts == front + [w];
  }

  /** `part` is settled in `ts`: its complete tokens are there, and its open one begins the next. */
  ghost predicate Settled(part: seq<seq<Byte>>, ts: seq<seq<Byte>>) {
    && 1 <= |part| <= |ts| && part[|part| - 1] <= ts[|part| - 1]
    && forall k :: 0 <= k < |part| - 1 ==> part[k] == ts[k]
  }

  lemma StaysSettled(part: seq<seq<Byte>>, ts: seq<seq<Byte>>, c: Byte, x: Byte)
    requires Settled(part, ts)
    ensures Settled(part, if x == c then ts + [[]] else ts[..|ts| - 1] + [ts[|ts| - 1] + [x]])
  {
  }

  /** The tokens of a prefix that grows by one character. */
  lemma NextToken(s: seq<Byte>, c: Byte, p: nat)
    requires p < |s|
    ensures var ts := Tokens(s[..p], c);
            Tokens(s[..p + 1], c) == if s[p] == c then ts + [[]] else ts[..|ts| - 1] + [ts[|ts| - 1] + [s[p]]]
  {
    TokensSnoc(s[..p], c, s[p]);
    assert s[..p + 1] == s[..p] + [s[p]];
  }

  lemma StaysSettledNext(part: seq<seq<Byte>>, s: seq<Byte>, c: Byte, k: nat)
    requires k < |s| && Settled(part, Tokens(s[..k], c))
    ensures Settled(part, Tokens(s[..k + 1], c))
  {
    NextToken(s, c, k);
    StaysSettled(part, Tokens(s[..k], c), c, s[k]);
  }

  lemma StaysSettledToEnd(part: seq<seq<Byte>>, s: seq<Byte>, c: Byte, p: nat)
    requires p <= |s| && Settled(part, Tokens(s[..p], c))
    ensures Settled(part, Tokens(s, c))
  {
    var k := p;
    while k < |s|
      invariant p <= k <= |s| && Settled(part, Tokens(s[..k], c))
    {
      StaysSettledNext(part, s, c, k);
      k := k + 1;
    }
    assert s[..k] == s;
  }

  lemma SettledInItself(ts: seq<seq<Byte>>)
    requires ts != []
    ensures Settled(ts, ts)
  {
  }

  /** What a prefix of the string has already settled about the tokens. */
  lemma PrefixTokens(s: seq<Byte>, c: Byte, p: nat)
    requires p <= |s|
    ensures Settled(Tokens(s[..p], c), Tokens(s, c))
  {
    SettledInItself(Tokens(s[..p], c));
    StaysSettledToEnd(Tokens(s[..p], c), s, c, p);
  }

  /** What the next character does to the token being filled, and why it fits its buffer. */
  lemma FillStep(str: seq<Byte>, c: Byte, p: nat)
    requires p < |str|
    ensures var all, ts, ts' := Tokens(str, c), Tokens(str[..p], c), Tokens(str[..p + 1], c);
            var i := |ts| - 1;
            && (str[p] != c ==> |ts'| == |ts| <= |all| && ts'[i] == ts[i] + [str[p]] && |ts[i]| < |all[i]|)
            && (str[p] == c ==> |ts'| == |ts| + 1 <= |all| && ts[i] == all[i] && ts'[i + 1] == [])
  {
    NextToken(str, c, p);
    PrefixTokens(str, c, p + 1);
  }

  /** What the next character does to the sizes. */
  lemma SizeStep(str: seq<Byte>, c: Byte, p: nat)
    requires p < |str|
    ensures var ts, ts' := Tokens(str[..p], c), Tokens(str[..p + 1], c);
            var i := |ts| - 1;
            && |ts'| == (if str[p] == c then |ts| + 1 else |ts|)
            && (forall k :: 0 <= k < i ==> ts'[k] == ts[k])
            && (if str[p] == c then ts'[i] == ts[i] && ts'[i + 1] == [] else |ts'[i]| == |ts[i]| + 1)
  {
    NextToken(str, c, p);
  }

  /** First pass: the number of tokens. */
  method CountTokens(str: seq<Byte>, c: Byte) returns (count: nat)
    ensures count == |Tokens(str, c)|
  {
    count := 1;
    var p := 0;
    while p < |str|
      invariant 0 <= p <= |str| && count == |Tokens(str[..p], c)|
    {
      NextToken(str, c, p);
      if str[p] == c {
        count := count + 1;
      }
      p := p + 1;
    }
    assert str[..p] == str;
  }

  /** The buffer has room for the token and its terminator, and no more. */
  ghost predicate Fits(buffer: array<Byte>, token: seq<Byte>) {
    buffer.Length == |token| + 1
  }

  /** Second pass: one buffer for each token, with room for the token and a terminator. */
  method Allocate(str: seq<Byte>, c: Byte) returns (arr: seq<array<Byte>>)
    ensures |arr| == |Tokens(str, c)|
    ensures forall k :: 0 <= k < |arr| ==> fresh(arr[k]) && Fits(arr[k], Tokens(str, c)[k])
    ensures forall k, l :: 0 <= k < l < |arr| ==> arr[k] != arr[l]
  {
    arr := [];
    ghost var ts := Tokens(str[..0], c);
    var tokenLen, p := 1, 0;
    while p < |str|
      invariant 0 <= p <= |str| && ts == Tokens(str[..p], c) && ts != []
      invariant |arr| == |ts| - 1 && tokenLen == |ts[|ts| - 1]| + 1
      invariant forall k :: 0 <= k < |arr| ==> fresh(arr[k]) && Fits(arr[k], ts[k])
      invariant forall k, l :: 0 <= k < l < |arr| ==> arr[k] != arr[l]
    {
      SizeStep(str, c, p);
      ts := Tokens(str[..p + 1], c);
      if str[p] == c {
        var token := new Byte[tokenLen];
        arr := arr + [token];
        tokenLen := 0;
      }
      p := p + 1;
      tokenLen := tokenLen + 1;
    }
    assert str[..p] == str;
    var token := new Byte[tokenLen];
    arr := arr + [token];
  }

  ghost predicate HoldsToken(buffer: array<Byte>, token: seq<Byte>)
    reads buffer
  {
    |token| < buffer.Length && buffer[..|token|] == token
  }

  ghost predicate Terminated(buffer: array<Byte>, token: seq<Byte>)
    reads buffer
  {
    HoldsToken(buffer, token) && buffer[|token|] == 0
  }

  /** A write into the buffer being filled leaves the finished ones alone. */
  method WriteByte(arr: seq<array<Byte>>, i: nat, t: nat, x: Byte, ghost all: seq<seq<Byte>>)
    requires i < |arr| <= |all| && t < arr[i].Length
    requires forall k, l :: 0 <= k < l < |arr| ==> arr[k] != arr[l]
    requires forall k :: 0 <= k < i ==> Terminated(arr[k], all[k])
    modifies arr[i]
    ensures arr[i][..t] == old(arr[i][..t]) && arr[i][t] == x
    ensures arr[i][..t + 1] == old(arr[i][..t]) + [x]
    ensures forall k :: 0 <= k < i ==> Terminated(arr[k], all[k])
  {
    var buffer := arr[i];
    buffer[t] := x;
  }

  /** The buffers when `p` characters are read: those before `i` are finished, and `i` holds the `t` characters
      of the open token. */
  ghost predicate Filled(arr: seq<array<Byte>>, str: seq<Byte>, c: Byte, p: nat, i: nat, t: nat)
    requires p <= |str| && |arr| == |Tokens(str, c)|
    reads arr
  {
    var ts := Tokens(str[..p], c);
    && i == |ts| - 1 < |arr| && t == |ts[i]| && HoldsToken(arr[i], ts[i])
    && forall k :: 0 <= k < i ==> Terminated(arr[k], Tokens(str, c)[k])
  }

  /** One round of the third pass: a character goes into the buffer of its token, or a delimiter terminates
      it. */
  method FillOne(str: seq<Byte>, c: Byte, arr: seq<array<Byte>>, p: nat, i: nat, t: nat) returns (i': nat, t': nat)
    requires p < |str| && |arr| == |Tokens(str, c)| && Filled(arr, str, c, p, i, t)
    requires forall k :: 0 <= k < |arr| ==> Fits(arr[k], Tokens(str, c)[k])
    requires forall k, l :: 0 <= k < l < |arr| ==> arr[k] != arr[l]
    modifies arr
    ensures Filled(arr, str, c, p + 1, i', t')
  {
    FillStep(str, c, p);
    if str[p] != c {
      WriteByte(arr, i, t, str[p], Tokens(str, c));
      i', t' := i, t + 1;
    } else {
      WriteByte(arr, i, t, 0, Tokens(str, c));
      i', t' := i + 1, 0;
    }
  }

  /** Third pass: every write stays inside the buffer of its token (each index is checked), and every
      token but the last is terminated. */
  method Fill(str: seq<Byte>, c: Byte, arr: seq<array<Byte>>)
    requires |arr| == |Tokens(str, c)|
    requires forall k :: 0 <= k < |arr| ==> Fits(arr[k], Tokens(str, c)[k])
    requires forall k, l :: 0 <= k < l < |arr| ==> arr[k] != arr[l]
    modifies arr
    ensures forall k :: 0 <= k < |arr| ==> HoldsToken(arr[k], Tokens(str, c)[k])
    ensures forall k :: 0 <= k < |arr| - 1 ==> Terminated(arr[k], Tokens(str, c)[k])
  {
    var i, t, p := 0, 0, 0;
    while p < |str|
      invariant 0 <= p <= |str| && Filled(arr, str, c, p, i, t)
    {
      i, t := FillOne(str, c, arr, p, i, t);
      p := p + 1;
    }
    assert str[..p] == str;
  }

  /** split */
  method SplitString(str: seq<Byte>, c: Byte) returns (count: nat, arr: seq<array<Byte>>)
    ensures count == |arr| == |Tokens(str, c)|
    ensures forall k :: 0 <= k < count ==> fresh(arr[k]) && Fits(arr[k], Tokens(str, c)[k])
    ensures forall k :: 0 <= k < count ==> HoldsToken(arr[k], Tokens(str, c)[k])
    ensures forall k :: 0 <= k < count - 1 ==> Terminated(arr[k], Tokens(str, c)[k])
  {
    count := CountTokens(str, c);
    arr := Allocate(str, c);
    Fill(str, c, arr);
  }
}
