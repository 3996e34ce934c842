/** The names under which uploads are stored, "<gid>_<number>.file", and how a download reads the number
    back out of the name with two calls of split (chat-server.c:559-561, 583-600). */
module FileNames {
  import opened Basics
  import opened Wire
  import opened TextFiles
  import opened Accounts
  import opened Tokenizer

  const UNDERSCORE: Byte := 95
  const DOT: Byte := 46
  const SLASH: Byte := 47
  const FILENAME_SIZE := 100

  /** ".file" without its dot. */
  const FILE_SUFFIX: Text := [102, 105, 108, 101]

  /** "<number>.file" */
  function NumberedFile(number: nat): Text {
    Decimal(number) + [DOT] + FILE_SUFFIX
  }

  /** FILE_FORMAT */
  function UploadName(gid: nat, number: nat): Text {
    Decimal(gid) + [UNDERSCORE] + NumberedFile(number)
  }

  /** snprintf(filename, 100, "./%s", name) */
  function DownloadPath(name: Text): Text {
    var path := [DOT, SLASH] + name;
    if |path| < FILENAME_SIZE then path else path[..FILENAME_SIZE - 1]
  }

  /** The second piece of the path, cut at '_', and its first piece, cut at '.'. */
  function NumberToken(path: Text): Option<Text> {
    var pieces := Tokens(path, UNDERSCORE);
    if |pieces| < 2 then None else Some(Tokens(pieces[1], DOT)[0])
  }

  /** The text that sscanf is given. split does not terminate its last token: when the second piece is the
      last one, the second split also reads `junk`, whatever lies behind it in memory, and when that split
      finds one token only, sscanf reads `junk'` behind it. */
  function ScannedText(path: Text, junk: Text, junk': Text): Option<Text> {
    var pieces := Tokens(path, UNDERSCORE);
    if |pieces| < 2 then None
    else
      var ts := Tokens(if |pieces| == 2 then pieces[1] + junk else pieces[1], DOT);
      Some(if |ts| == 1 then ts[0] + junk' else ts[0])
  }

  /** The second piece holds a '.', so the number in front of it is read alone. */
  predicate NumberIsSettled(path: Text) {
    var pieces := Tokens(path, UNDERSCORE);
    |pieces| >= 2 && DOT in pieces[1]
  }

  lemma TwoTokens(a: Text, b: Text, c: Byte)
    requires c !in a && c !in b
    ensures Tokens(a + [c] + b, c) == [a, b]
  {
    assert [a, b][..1] == [a];
    assert JoinTokens([a, b], c) == a + [c] + b;
    TokensOfJoin([a, b], c);
  }

  lemma {:induction false} OccursIff(s: Text, c: Byte)
    ensures Occurrences(s, c) > 0 <==> c in s
  {
    if s != [] {
      OccursIff(s[..|s| - 1], c);
      assert s == s[..|s| - 1] + [s[|s| - 1]];
    }
  }

  /** With a delimiter in front of it, what follows cannot change the first token. */
  lemma FirstTokenStays(piece: Text, junk: Text, c: Byte)
    requires c in piece
    ensures |Tokens(piece, c)| > 1 && |Tokens(piece + junk, c)| > 1 && Tokens(piece + junk, c)[0] == Tokens(piece, c)[0]
  {
    OccursIff(piece, c);
    JoinOfTokens(piece, c);
    PrefixTokens(piece + junk, c, |piece|);
    assert (piece + junk)[..|piece|] == piece;
  }

  /** Without one, the piece is one token. */
  lemma OneToken(piece: Text, c: Byte)
    requires c !in piece
    ensures Tokens(piece, c) == [piece]
  {
    assert JoinTokens([piece], c) == piece;
    TokensOfJoin([piece], c);
  }

  /** The first token of a string that goes on behind the piece is the piece's own, whatever follows, if and
      only if the piece holds the delimiter. */
  lemma FirstTokenIsSettledIff(piece: Text, c: Byte)
    ensures (forall junk :: Tokens(piece + junk, c)[0] == Tokens(piece, c)[0]) <==> c in piece
  {
    if c in piece {
      forall junk ensures Tokens(piece + junk, c)[0] == Tokens(piece, c)[0] {
        FirstTokenStays(piece, junk, c);
      }
    } else {
      var other := if c == 0 then 1 else 0;
      OneToken(piece, c);
      OneToken(piece + [other], c);
      assert |Tokens(piece + [other], c)[0]| > |Tokens(piece, c)[0]|;
    }
  }

  lemma SettledNumberIsRead(path: Text, junk: Text, junk': Text)
    requires NumberIsSettled(path)
    ensures ScannedText(path, junk, junk') == NumberToken(path)
  {
    var pieces := Tokens(path, UNDERSCORE);
    FirstTokenStays(pieces[1], junk, DOT);
  }

  lemma UnsettledNumberVaries(path: Text)
    requires |Tokens(path, UNDERSCORE)| >= 2 && !NumberIsSettled(path)
    ensures ScannedText(path, [], [57]) != NumberToken(path)
  {
    var piece := Tokens(path, UNDERSCORE)[1];
    OneToken(piece, DOT);
    assert piece + [] == piece && |piece + [57]| > |piece|;
  }

  /** A download reads the number in the name, whatever lies behind the unterminated tokens, if and only if a
      '.' follows in the second piece. */
  lemma NumberIsReadIff(path: Text)
    requires |Tokens(path, UNDERSCORE)| >= 2
    ensures (forall junk, junk' :: ScannedText(path, junk, junk') == NumberToken(path)) <==> NumberIsSettled(path)
  {
    if NumberIsSettled(path) {
      forall junk, junk' ensures ScannedText(path, junk, junk') == NumberToken(path) {
        SettledNumberIsRead(path, junk, junk');
      }
    } else {
      UnsettledNumberVaries(path);
    }
  }

  lemma SevenAndSeventyNine()
    ensures ScanDecimal([55]) == 7 && ScanDecimal([55, 57]) == 79
  {
    assert [55, 57][..1] == [55] && [55][..0] == [];
  }

  /** The name "a_7" holds the number 7; with a 9 behind it in memory 79 is read. */
  lemma JunkChangesNumber()
    ensures var path := DownloadPath([97, UNDERSCORE, 55]);
            && NumberToken(path) == Some([55]) && ScannedText(path, [57], []) == Some([55, 57])
            && ScanDecimal([55]) == 7 && ScanDecimal([55, 57]) == 79
  {
    var path := DownloadPath([97, UNDERSCORE, 55]);
    assert path == [DOT, SLASH, 97] + [UNDERSCORE] + [55];
    TwoTokens([DOT, SLASH, 97], [55], UNDERSCORE);
    OneToken([55], DOT);
    OneToken([55, 57], DOT);
    assert [55] + [57] == [55, 57] && [55, 57] + [] == [55, 57];
    SevenAndSeventyNine();
  }

  lemma PathOfUpload(gid: nat, number: nat)
    requires |UploadName(gid, number)| + 2 < FILENAME_SIZE
    ensures DownloadPath(UploadName(gid, number)) == [DOT, SLASH] + Decimal(gid) + [UNDERSCORE] + NumberedFile(number)
  {
    ConcatAssociates([DOT, SLASH], Decimal(gid) + [UNDERSCORE], NumberedFile(number));
    ConcatAssociates([DOT, SLASH], Decimal(gid), [UNDERSCORE]);
  }

  /** The first upload to group 0 is called "0_1.file". */
  lemma NameOfFirstUpload()
    ensures UploadName(0, 1) == [48, 95, 49, 46, 102, 105, 108, 101]
  {
  }

  /** A name too long for the buffer of 100 bytes is cut, a shorter one is not. */
  lemma DownloadPathIs(name: Text)
    ensures DownloadPath(name) <= [46, 47] + name
    ensures |DownloadPath(name)| == if |name| <= 97 then |name| + 2 else 99
  {
  }

  lemma PiecesOfUpload(gid: nat, number: nat)
    requires |UploadName(gid, number)| + 2 < FILENAME_SIZE
    ensures Tokens(DownloadPath(UploadName(gid, number)), UNDERSCORE) == [[DOT, SLASH] + Decimal(gid), NumberedFile(number)]
  {
    PathOfUpload(gid, number);
    TwoTokens([DOT, SLASH] + Decimal(gid), NumberedFile(number), UNDERSCORE);
  }

  lemma UploadIsSettled(gid: nat, number: nat)
    requires |UploadName(gid, number)| + 2 < FILENAME_SIZE
    ensures var path := DownloadPath(UploadName(gid, number));
            NumberIsSettled(path) && NumberToken(path) == Some(Decimal(number))
  {
    PiecesOfUpload(gid, number);
    assert NumberedFile(number)[|Decimal(number)|] == DOT;
    TwoTokens(Decimal(number), FILE_SUFFIX, DOT);
  }

  /** The number can be read back from the path of an upload, whatever lies behind the unterminated last
      token that its second piece is. */
  lemma NumberOfUpload(gid: nat, number: nat)
    requires |UploadName(gid, number)| + 2 < FILENAME_SIZE
    ensures NumberToken(DownloadPath(UploadName(gid, number))) == Some(Decimal(number))
    ensures forall junk, junk' ::
      ScannedText(DownloadPath(UploadName(gid, number)), junk, junk') == Some(Decimal(number))
    ensures ScanDecimal(Decimal(number)) == number
  {
    var path := DownloadPath(UploadName(gid, number));
    UploadIsSettled(gid, number);
    forall junk, junk' ensures ScannedText(path, junk, junk') == Some(Decimal(number)) {
      SettledNumberIsRead(path, junk, junk');
    }
    ScanOfDecimal(number);
  }

  lemma NumbersMakeNamesDistinct(gid: nat, number: nat, gid': nat, number': nat)
    requires |UploadName(gid, number)| + 2 < FILENAME_SIZE && |UploadName(gid', number')| + 2 < FILENAME_SIZE
    requires UploadName(gid, number) == UploadName(gid', number')
    ensures number == number'
  {
    NumberOfUpload(gid, number);
    NumberOfUpload(gid', number');
  }
}
