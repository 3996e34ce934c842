/** How the server reads a text file: `fgets` into a buffer, again and again. */
module TextFiles {
  import opened Wire

  type Text = seq<Byte>

  const NEWLINE: Byte := 10
  const LINE_BUFFER := 256

  /** Where fgets stops that has taken `i` bytes for a buffer of `size`: behind a newline, with a full
      buffer, or at the end. */
  function LineEnd(s: Text, i: nat, size: nat): (e: nat)
    requires i <= |s| && i < size
    ensures i <= e <= |s| && e < size && (i < |s| && i < size - 1 ==> e > i)
    ensures forall k :: i <= k < e - 1 ==> s[k] != NEWLINE
    decreases size - i
  {
    if i == |s| || i == size - 1 then i
    else if s[i] == NEWLINE then i + 1
    else LineEnd(s, i + 1, size)
  }

  /** The lines that fgets returns one after the other. */
  function Cut(s: Text): seq<Text> {
    if s == [] then [] else [s[..LineEnd(s, 0, LINE_BUFFER)]] + Cut(s[LineEnd(s, 0, LINE_BUFFER)..])
  }

  /** Whatever is appended starts a line of its own. */
  predicate Ended(s: Text) {
    s == [] || s[|s| - 1] == NEWLINE
  }

  lemma {:induction false} LineEndIsLocal(s: Text, more: Text, i: nat)
    requires i < |s| && i < LINE_BUFFER && Ended(s)
    ensures LineEnd(s + more, i, LINE_BUFFER) == LineEnd(s, i, LINE_BUFFER)
    decreases LINE_BUFFER - i
  {
    if i < LINE_BUFFER - 1 && s[i] != NEWLINE {
      LineEndIsLocal(s, more, i + 1);
    }
  }

  lemma {:induction false} CutAppend(s: Text, more: Text)
    requires Ended(s)
    ensures Cut(s + more) == Cut(s) + Cut(more)
    decreases |s|
  {
    if s == [] {
      assert s + more == more;
    } else {
      var e := LineEnd(s, 0, LINE_BUFFER);
      LineEndIsLocal(s, more, 0);
      assert (s + more)[..e] == s[..e] && (s + more)[e..] == s[e..] + more;
      CutAppend(s[e..], more);
    }
  }

  lemma {:induction false} LineEndOfOneLine(s: Text, i: nat)
    requires i < |s| < LINE_BUFFER && forall k :: i <= k < |s| - 1 ==> s[k] != NEWLINE
    ensures LineEnd(s, i, LINE_BUFFER) == |s|
    decreases |s| - i
  {
    if i < |s| - 1 {
      LineEndOfOneLine(s, i + 1);
    }
  }

  /** A text is read in one piece if and only if it fits the buffer with the terminator and no newline
      comes before its last byte. */
  lemma OneLineIff(s: Text)
    ensures |Cut(s)| == 1 <==> 1 <= |s| < LINE_BUFFER && forall k :: 0 <= k < |s| - 1 ==> s[k] != NEWLINE
    ensures |Cut(s)| == 1 ==> Cut(s) == [s]
  {
    if s != [] {
      var e := LineEnd(s, 0, LINE_BUFFER);
      if |s| < LINE_BUFFER && forall k :: 0 <= k < |s| - 1 ==> s[k] != NEWLINE {
        LineEndOfOneLine(s, 0);
      }
      assert e == |s| ==> s[..e] == s && s[e..] == [];
    }
  }

  /** The last line ends as the file does. */
  lemma {:induction false} LastLine(s: Text)
    requires s != []
    ensures Cut(s) != []
    ensures var last := Cut(s)[|Cut(s)| - 1]; last != [] && last[|last| - 1] == s[|s| - 1]
    decreases |s|
  {
    var e := LineEnd(s, 0, LINE_BUFFER);
    assert Cut(s) == [s[..e]] + Cut(s[e..]);
    if e < |s| {
      LastLine(s[e..]);
      assert s[e..][|s| - e - 1] == s[|s| - 1];
    } else {
      assert s[e..] == [];
    }
  }

  /** What one fgets with a buffer of `size` takes from the front of a text. */
  function FirstLine(s: Text, size: nat): Text
    requires size > 0
  {
    s[..LineEnd(s, 0, size)]
  }

  lemma {:induction false} LineEndWithoutNewline(s: Text, i: nat, size: nat)
    requires i <= |s| && i < size && NEWLINE !in s
    ensures LineEnd(s, i, size) == if |s| < size then |s| else size - 1
    decreases size - i
  {
    if i < |s| && i < size - 1 {
      assert s[i] in s;
      LineEndWithoutNewline(s, i + 1, size);
    }
  }

  /** Without a newline the buffer decides: a text that fits is taken whole, a longer one is cut. */
  lemma FirstLineOf(s: Text, size: nat)
    requires size > 0 && NEWLINE !in s
    ensures FirstLine(s, size) == if |s| < size then s else s[..size - 1]
  {
    LineEndWithoutNewline(s, 0, size);
  }

  /** fgets: the next line and what remains of the file. */
  method Fgets(s: Text, size: nat) returns (line: Text, rest: Text)
    requires s != [] && size > 1
    ensures line == FirstLine(s, size) && s == line + rest && 1 <= |line| < size
  {
    var i := 0;
    while i < |s| && i < size - 1 && (i == 0 || s[i - 1] != NEWLINE)
      invariant 0 <= i <= |s| && i < size && (i == 0 ==> LineEnd(s, 0, size) > 0)
      invariant LineEnd(s, 0, size) == if i > 0 && s[i - 1] == NEWLINE then i else LineEnd(s, i, size)
    {
      i := i + 1;
    }
    line, rest := s[..i], s[i..];
  }

  /** `rest` is what remains of a file when `i` of its lines are read. */
  ghost predicate Position(lines: seq<Text>, i: nat, rest: Text) {
    i <= |lines| && Cut(rest) == lines[i..]
  }

  /** The next round of a `while (fgets(...))` loop. */
  method NextLine(rest: Text, ghost lines: seq<Text>, ghost i: nat) returns (line: Text, rest': Text)
    requires rest != [] && Position(lines, i, rest)
    ensures i < |lines| && line == lines[i] && Position(lines, i + 1, rest') && |rest'| < |rest|
  {
    line, rest' := Fgets(rest, LINE_BUFFER);
    assert rest' == rest[|line|..];
  }
}
