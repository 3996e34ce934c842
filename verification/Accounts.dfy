/** The credential file of chat-server.c: one "uid name password" line per account, scanned from the
    top by every lookup, extended at the end by create_user. */
module Accounts {
  import opened Basics
  import opened Wire
  import opened TextFiles

  const SPACE: Byte := 32
  const ERR_USERNAME_EXIST := -11

  datatype Account = Account(name: Text, password: Text)

  // ---------------------------------------------------------------------------------------------
  // Lines
  // ---------------------------------------------------------------------------------------------

  /** printf's %d for a number that is not negative. */
  function Decimal(n: nat): (s: Text)
    ensures s != [] && forall i :: 0 <= i < |s| ==> 48 <= s[i] <= 57
  {
    if n < 10 then [48 + n] else Decimal(n / 10) + [48 + n % 10]
  }

  /** sscanf's %d on a token of digits. */
  function ScanDecimal(s: Text): int {
    if s == [] then 0 else 10 * ScanDecimal(s[..|s| - 1]) + (s[|s| - 1] as int - 48)
  }

  lemma {:induction false} ScanOfDecimal(n: nat)
    ensures ScanDecimal(Decimal(n)) == n
  {
    if n >= 10 {
      ScanOfDecimal(n / 10);
      assert Decimal(n)[..|Decimal(n)| - 1] == Decimal(n / 10);
    } else {
      assert Decimal(n)[..0] == [];
    }
  }

  function TenTo(k: nat): nat {
    if k == 0 then 1 else 10 * TenTo(k - 1)
  }

  lemma {:induction false} DecimalIsShort(n: nat, digits: nat)
    requires digits > 0 && n < TenTo(digits)
    ensures |Decimal(n)| <= digits
  {
    if digits > 1 && n >= 10 {
      DecimalIsShort(n / 10, digits - 1);
    }
  }

  /** What create_user appends. */
  function FormatLine(uid: nat, a: Account): Text {
    Decimal(uid) + ([SPACE] + (a.name + ([SPACE] + (a.password + [NEWLINE]))))
  }

  /** Position of the first space at or after `i`, or the end. */
  function SpaceFrom(s: Text, i: nat): (p: nat)
    requires i <= |s|
    ensures i <= p <= |s| && (forall k :: i <= k < p ==> s[k] != SPACE) && (p < |s| ==> s[p] == SPACE)
    decreases |s| - i
  {
    if i == |s| || s[i] == SPACE then i else SpaceFrom(s, i + 1)
  }

  /** strtok(…, " ") continuing at `i`: the token (empty for NULL) and where the next call continues. */
  function StrTok(s: Text, i: nat): (r: (Text, nat))
    requires i <= |s|
    ensures r.1 <= |s|
    decreases |s| - i
  {
    if i < |s| && s[i] == SPACE then StrTok(s, i + 1)
    else
      var e := SpaceFrom(s, i);
      (s[i..e], if e < |s| then e + 1 else e)
  }

  function UidToken(line: Text): Text {
    StrTok(line, 0).0
  }

  function NameToken(line: Text): Text {
    StrTok(line, StrTok(line, 0).1).0
  }

  function PasswordToken(line: Text): Text {
    StrTok(line, StrTok(line, StrTok(line, 0).1).1).0
  }

  predicate LegalWord(w: Text) {
    forall i :: 0 <= i < |w| ==> w[i] != SPACE && w[i] != NEWLINE && w[i] != 0
  }

  /** Names and passwords that survive the buffers and the line format. */
  predicate Legal(a: Account) {
    LegalWord(a.name) && LegalWord(a.password) && 1 <= |a.name| <= 7 && |a.password| <= 127
  }

  predicate Spaceless(w: Text) {
    forall k :: 0 <= k < |w| ==> w[k] != SPACE
  }

  /** A word between spaces is one token. */
  lemma StrTokWord(pre: Text, w: Text, post: Text)
    requires w != [] && Spaceless(w) && (post == [] || post[0] == SPACE)
    ensures StrTok(pre + w + post, |pre|) == (w, |pre| + |w| + if post == [] then 0 else 1)
  {
    var s, e := pre + w + post, |pre| + |w|;
    assert s[|pre|] == w[0];
    assert forall k :: |pre| <= k < e ==> s[k] == w[k - |pre|];
    assert post != [] ==> s[e] == post[0];
    assert SpaceFrom(s, |pre|) == e;
    assert s[|pre|..e] == w;
  }

  lemma DecimalHasNoSpace(n: nat)
    ensures Spaceless(Decimal(n))
  {
  }

  lemma LineUid(uid: nat, a: Account)
    ensures StrTok(FormatLine(uid, a), 0) == (Decimal(uid), |Decimal(uid)| + 1)
  {
    var post := [SPACE] + (a.name + ([SPACE] + (a.password + [NEWLINE])));
    DecimalHasNoSpace(uid);
    StrTokWord([], Decimal(uid), post);
    assert [] + Decimal(uid) == Decimal(uid);
  }

  lemma LineName(uid: nat, a: Account)
    requires a.name != [] && Spaceless(a.name)
    ensures StrTok(FormatLine(uid, a), |Decimal(uid)| + 1) == (a.name, |Decimal(uid)| + |a.name| + 2)
  {
    var pre, post := Decimal(uid) + [SPACE], [SPACE] + (a.password + [NEWLINE]);
    assert FormatLine(uid, a) == pre + a.name + post by {
      ConcatAssociates(Decimal(uid), [SPACE], a.name + post);
      ConcatAssociates(pre, a.name, post);
    }
    StrTokWord(pre, a.name, post);
  }

  lemma LinePassword(uid: nat, a: Account)
    requires Spaceless(a.password)
    ensures StrTok(FormatLine(uid, a), |Decimal(uid)| + |a.name| + 2).0 == a.password + [NEWLINE]
  {
    var pre, last := Decimal(uid) + [SPACE] + a.name + [SPACE], a.password + [NEWLINE];
    assert FormatLine(uid, a) == pre + last + [] by {
      ConcatAssociates(Decimal(uid), [SPACE], a.name + ([SPACE] + last));
      ConcatAssociates(Decimal(uid) + [SPACE], a.name, [SPACE] + last);
      ConcatAssociates(Decimal(uid) + [SPACE] + a.name, [SPACE], last);
      assert pre + last + [] == pre + last;
    }
    StrTokWord(pre, last, []);
  }

  /** strlen(pw) - 1 characters of the password token are compared: all but its newline. */
  function StoredPassword(line: Text): Text {
    var token := PasswordToken(line);
    if token == [] then [] else token[..|token| - 1]
  }

  /** The uid is scanned back. */
  lemma LineScansUid(uid: nat, a: Account)
    ensures ScanDecimal(UidToken(FormatLine(uid, a))) == uid
  {
    LineUid(uid, a);
    ScanOfDecimal(uid);
  }

  lemma LineGivesName(uid: nat, a: Account)
    requires a.name != [] && Spaceless(a.name)
    ensures NameToken(FormatLine(uid, a)) == a.name
  {
    LineUid(uid, a);
    LineName(uid, a);
  }

  lemma LineGivesPassword(uid: nat, a: Account)
    requires a.name != [] && Spaceless(a.name) && Spaceless(a.password)
    ensures PasswordToken(FormatLine(uid, a)) == a.password + [NEWLINE]
  {
    var line, i := FormatLine(uid, a), |Decimal(uid)| + 1;
    var j := i + |a.name| + 1;
    LineUid(uid, a);
    assert StrTok(line, 0).1 == i;
    LineName(uid, a);
    assert StrTok(line, i).1 == j;
    LinePassword(uid, a);
    assert StrTok(line, j).0 == a.password + [NEWLINE];
  }

  lemma LineFits(uid: nat, a: Account)
    requires Legal(a)
    ensures uid < 100000 ==> |FormatLine(uid, a)| < LINE_BUFFER
  {
    if uid < 100000 {
      assert TenTo(3) == 1000 && TenTo(5) == 100000;
      DecimalIsShort(uid, 5);
    }
  }

  /** Reading a written line gives the uid, the name and the password (with its newline) back, and the
      line fits the buffer fgets is given. */
  lemma LineRoundTrip(uid: nat, a: Account)
    requires Legal(a)
    ensures var line := FormatLine(uid, a);
            && ScanDecimal(UidToken(line)) == uid && NameToken(line) == a.name
            && PasswordToken(line) == a.password + [NEWLINE]
            && (uid < 100000 ==> |line| < LINE_BUFFER)
  {
    LineScansUid(uid, a);
    LineGivesName(uid, a);
    LineGivesPassword(uid, a);
    LineFits(uid, a);
  }

  /** A token holds no space; when it is empty, only spaces were left and no further token comes. */
  lemma {:induction false} TokenIsSpaceless(s: Text, i: nat)
    requires i <= |s|
    ensures Spaceless(StrTok(s, i).0)
    ensures StrTok(s, i).0 == [] ==> StrTok(s, i).1 == |s| && forall k :: i <= k < |s| ==> s[k] == SPACE
    decreases |s| - i
  {
    if i < |s| && s[i] == SPACE {
      TokenIsSpaceless(s, i + 1);
    }
  }

  /** The tokens of a written line are the account for exactly these accounts: tokenizing loses an empty
      name and every space. */
  lemma TokensAreAccountIff(uid: nat, a: Account)
    ensures var line := FormatLine(uid, a);
            NameToken(line) == a.name && StoredPassword(line) == a.password
            <==> a.name != [] && Spaceless(a.name) && Spaceless(a.password)
  {
    var line, i := FormatLine(uid, a), |Decimal(uid)| + 1;
    LineUid(uid, a);
    TokenIsSpaceless(line, i);
    TokenIsSpaceless(line, StrTok(line, i).1);
    assert line[|line| - 1] == NEWLINE;
    if a.name != [] && Spaceless(a.name) && Spaceless(a.password) {
      LineGivesPassword(uid, a);
      LineGivesName(uid, a);
      assert (a.password + [NEWLINE])[..|a.password|] == a.password;
    } else if StoredPassword(line) == a.password {
      assert Spaceless(a.password);
    }
  }

  /** After the line for the account is appended to the file, fgets returns one line more than before, and
      its tokens are the account. */
  ghost predicate ReadsBack(content: Text, uid: nat, a: Account) {
    var lines := Cut(content + FormatLine(uid, a));
    && |lines| == |Cut(content)| + 1 && lines[..|lines| - 1] == Cut(content)
    && var line := lines[|lines| - 1];
       ScanDecimal(UidToken(line)) == uid && NameToken(line) == a.name && StoredPassword(line) == a.password
  }

  predicate NoNewline(w: Text) {
    forall k :: 0 <= k < |w| ==> w[k] != NEWLINE
  }

  lemma NewlinesOfLine(uid: nat, a: Account)
    ensures var line := FormatLine(uid, a);
            (forall k :: 0 <= k < |line| - 1 ==> line[k] != NEWLINE) <==> NoNewline(a.name) && NoNewline(a.password)
  {
    var line, d, n := FormatLine(uid, a), |Decimal(uid)|, |a.name|;
    assert forall k :: 0 <= k < d ==> line[k] == Decimal(uid)[k];
    assert forall k :: 0 <= k < n ==> a.name[k] == line[d + 1 + k];
    assert forall k :: 0 <= k < |a.password| ==> a.password[k] == line[d + n + 2 + k];
    assert line[d] == SPACE && line[d + 1 + n] == SPACE;
    if NoNewline(a.name) && NoNewline(a.password) {
      forall k | 0 <= k < |line| - 1 ensures line[k] != NEWLINE {
        assert d < k < d + 1 + n ==> line[k] == a.name[k - d - 1];
        assert d + 1 + n < k ==> line[k] == a.password[k - d - n - 2];
      }
    }
  }

  /** An account that create_user appends reads back if and only if its name is not empty, neither text
      holds a space or a newline, and the line fits the buffer. */
  lemma LineReadsBackIff(content: Text, uid: nat, a: Account)
    requires Ended(content) && uid < INT_LIMIT && 0 !in a.name && 0 !in a.password
    ensures ReadsBack(content, uid, a) <==>
            && a.name != [] && Spaceless(a.name) && Spaceless(a.password)
            && NoNewline(a.name) && NoNewline(a.password) && |FormatLine(uid, a)| < LINE_BUFFER
  {
    var line := FormatLine(uid, a);
    CutAppend(content, line);
    OneLineIff(line);
    NewlinesOfLine(uid, a);
    TokensAreAccountIff(uid, a);
    LineScansUid(uid, a);
    if |Cut(line)| == 1 {
      assert (Cut(content) + [line])[..|Cut(content)|] == Cut(content);
    }
  }

  /** One account for each excluded case: an empty name, a space or a newline in either text, and a line
      that is too long. None reads back. */
  lemma AccountsThatDoNotReadBack(content: Text, uid: nat, long: Text)
    requires Ended(content) && uid < INT_LIMIT && |long| >= LINE_BUFFER && 0 !in long
    ensures !ReadsBack(content, uid, Account([], [112]))
    ensures !ReadsBack(content, uid, Account([97, SPACE, 98], [112]))
    ensures !ReadsBack(content, uid, Account([97], [112, SPACE, 113]))
    ensures !ReadsBack(content, uid, Account([97, NEWLINE, 98], [112]))
    ensures !ReadsBack(content, uid, Account([97], [112, NEWLINE, 113]))
    ensures !ReadsBack(content, uid, Account([97], long))
  {
    LineReadsBackIff(content, uid, Account([], [112]));
    LineReadsBackIff(content, uid, Account([97, SPACE, 98], [112]));
    LineReadsBackIff(content, uid, Account([97], [112, SPACE, 113]));
    LineReadsBackIff(content, uid, Account([97, NEWLINE, 98], [112]));
    LineReadsBackIff(content, uid, Account([97], [112, NEWLINE, 113]));
    LineReadsBackIff(content, uid, Account([97], long));
    assert [97, SPACE, 98][1] == SPACE && [112, SPACE, 113][1] == SPACE;
    assert [97, NEWLINE, 98][1] == NEWLINE && [112, NEWLINE, 113][1] == NEWLINE;
  }

  /** The name "a<newline>b" leaves two lines, and the second lacks a word. */
  lemma NewlineMakesTwoLines()
    ensures Cut(FormatLine(1, Account([97, NEWLINE, 98], [112]))) == [[49, SPACE, 97, NEWLINE], [98, SPACE, 112, NEWLINE]]
    ensures PasswordToken([98, SPACE, 112, NEWLINE]) == []
  {
    var first, second := [49, SPACE, 97, NEWLINE], [98, SPACE, 112, NEWLINE];
    assert FormatLine(1, Account([97, NEWLINE, 98], [112])) == first + second;
    CutAppend(first, second);
    OneLineIff(first);
    OneLineIff(second);
    StrTokWord([], [98], [SPACE, 112, NEWLINE]);
    StrTokWord([98, SPACE], [112, NEWLINE], []);
    assert [] + [98] + [SPACE, 112, NEWLINE] == second == [98, SPACE] + [112, NEWLINE] + [];
  }

  // ---------------------------------------------------------------------------------------------
  // Lookups
  // ---------------------------------------------------------------------------------------------

  /** What a scan sees of one line. */
  datatype Row = Row(uid: int, name: Text, password: Text)

  function RowOf(line: Text): Row {
    Row(ScanDecimal(UidToken(line)), NameToken(line), StoredPassword(line))
  }

  function Rows(lines: seq<Text>): (rows: seq<Row>)
    ensures |rows| == |lines| && forall i :: 0 <= i < |lines| ==> rows[i] == RowOf(lines[i])
  {
    seq(|lines|, i requires 0 <= i < |lines| => RowOf(lines[i]))
  }

  /** The first row from `i` on whose name begins the given one: only strlen(stored) characters are
      compared. */
  function NameRow(rows: seq<Row>, name: Text, i: nat): (r: nat)
    requires i <= |rows|
    ensures i <= r <= |rows| && (r < |rows| ==> rows[r].name <= name)
    ensures forall j :: i <= j < r ==> !(rows[j].name <= name)
    decreases |rows| - i
  {
    if i == |rows| || rows[i].name <= name then i else NameRow(rows, name, i + 1)
  }

  predicate Admits(row: Row, name: Text, password: Text) {
    row.name <= name && row.password <= password
  }

  /** The first row from `i` on that admits this name and password. */
  function LoginRow(rows: seq<Row>, name: Text, password: Text, i: nat): (r: nat)
    requires i <= |rows|
    ensures i <= r <= |rows| && (r < |rows| ==> Admits(rows[r], name, password))
    ensures forall j :: i <= j < r ==> !Admits(rows[j], name, password)
    decreases |rows| - i
  {
    if i == |rows| || Admits(rows[i], name, password) then i else LoginRow(rows, name, password, i + 1)
  }

  /** The first row from `i` on with this uid. */
  function UidRow(rows: seq<Row>, uid: int, i: nat): (r: nat)
    requires i <= |rows|
    ensures i <= r <= |rows| && (r < |rows| ==> rows[r].uid == uid)
    ensures forall j :: i <= j < r ==> rows[j].uid != uid
    decreases |rows| - i
  {
    if i == |rows| || rows[i].uid == uid then i else UidRow(rows, uid, i + 1)
  }

  function FindUid(rows: seq<Row>, name: Text): int {
    var r := NameRow(rows, name, 0);
    if r < |rows| then rows[r].uid else ERR_GENERIC
  }

  function MatchUserPw(rows: seq<Row>, name: Text, password: Text): int {
    var r := LoginRow(rows, name, password, 0);
    if r < |rows| then rows[r].uid else ERR_GENERIC
  }

  function FindUsername(rows: seq<Row>, uid: int): Option<Text> {
    var r := UidRow(rows, uid, 0);
    if r < |rows| then Some(rows[r].name) else None
  }

  /** create_user: the new uid is one more than the number of lines. */
  function CreateUser(lines: seq<Text>, a: Account): (int, seq<Text>) {
    if NameRow(Rows(lines), a.name, 0) < |lines| then (ERR_USERNAME_EXIST, lines)
    else (|lines| + 1, lines + [FormatLine(|lines| + 1, a)])
  }

  /** No name begins a later one. */
  ghost predicate PrefixFree(accounts: seq<Account>) {
    forall i, j :: 0 <= i < j < |accounts| ==> !(accounts[i].name <= accounts[j].name)
  }

  ghost predicate AllLegal(accounts: seq<Account>) {
    forall i :: 0 <= i < |accounts| ==> Legal(accounts[i])
  }

  /** The file holds exactly these accounts, uid i + 1 on line i. */
  ghost predicate Stores(lines: seq<Text>, accounts: seq<Account>) {
    && AllLegal(accounts) && PrefixFree(accounts)
    && |lines| == |accounts| && forall i :: 0 <= i < |accounts| ==> lines[i] == FormatLine(i + 1, accounts[i])
  }

  ghost predicate Lists(rows: seq<Row>, accounts: seq<Account>) {
    && |rows| == |accounts|
    && forall i :: 0 <= i < |accounts| ==> rows[i] == Row(i + 1, accounts[i].name, accounts[i].password)
  }

  lemma RowOfLine(uid: nat, a: Account)
    requires Legal(a)
    ensures RowOf(FormatLine(uid, a)) == Row(uid, a.name, a.password)
  {
    LineRoundTrip(uid, a);
    assert (a.password + [NEWLINE])[..|a.password|] == a.password;
  }

  lemma StoredRow(lines: seq<Text>, accounts: seq<Account>, i: nat)
    requires Stores(lines, accounts) && i < |accounts|
    ensures Rows(lines)[i] == Row(i + 1, accounts[i].name, accounts[i].password)
  {
    RowOfLine(i + 1, accounts[i]);
  }

  lemma StoredRows(lines: seq<Text>, accounts: seq<Account>)
    requires Stores(lines, accounts)
    ensures Lists(Rows(lines), accounts)
  {
    forall i | 0 <= i < |accounts| ensures Rows(lines)[i] == Row(i + 1, accounts[i].name, accounts[i].password) {
      StoredRow(lines, accounts, i);
    }
  }

  /** Every stored account is found under its own name, uid and password, whatever else is stored. */
  lemma ListedAccountIsFound(rows: seq<Row>, accounts: seq<Account>, i: nat)
    requires Lists(rows, accounts) && PrefixFree(accounts) && i < |accounts|
    ensures FindUid(rows, accounts[i].name) == i + 1
    ensures FindUsername(rows, i + 1) == Some(accounts[i].name)
    ensures MatchUserPw(rows, accounts[i].name, accounts[i].password) == i + 1
  {
    var a := accounts[i];
    assert rows[i].name <= a.name && Admits(rows[i], a.name, a.password) && rows[i].uid == i + 1;
  }

  lemma StoredLogin(lines: seq<Text>, accounts: seq<Account>, i: nat)
    requires Stores(lines, accounts) && i < |accounts|
    ensures MatchUserPw(Rows(lines), accounts[i].name, accounts[i].password) == i + 1
  {
    StoredRows(lines, accounts);
    ListedAccountIsFound(Rows(lines), accounts, i);
  }

  lemma NameIsFree(lines: seq<Text>, accounts: seq<Account>, name: Text)
    requires Stores(lines, accounts) && forall i :: 0 <= i < |accounts| ==> !(accounts[i].name <= name)
    ensures NameRow(Rows(lines), name, 0) == |lines|
  {
    StoredRows(lines, accounts);
    assert forall i :: 0 <= i < |accounts| ==> Rows(lines)[i].name == accounts[i].name;
  }

  lemma StoresMore(lines: seq<Text>, accounts: seq<Account>, a: Account)
    requires Stores(lines, accounts) && Legal(a)
    requires forall i :: 0 <= i < |accounts| ==> !(accounts[i].name <= a.name)
    ensures Stores(lines + [FormatLine(|lines| + 1, a)], accounts + [a])
  {
    var line := FormatLine(|lines| + 1, a);
    var accounts' := accounts + [a];
    forall i | 0 <= i < |accounts'| ensures (lines + [line])[i] == FormatLine(i + 1, accounts'[i]) {
    }
  }

  /** A new name gets the next number and is stored at the end; login then yields the uid that creation
      returned. */
  lemma CreationOfNew(lines: seq<Text>, accounts: seq<Account>, a: Account)
    requires Stores(lines, accounts) && Legal(a)
    requires forall i :: 0 <= i < |accounts| ==> !(accounts[i].name <= a.name)
    ensures var lines' := lines + [FormatLine(|lines| + 1, a)];
            && CreateUser(lines, a) == (|accounts| + 1, lines') && Stores(lines', accounts + [a])
            && MatchUserPw(Rows(lines'), a.name, a.password) == |accounts| + 1
  {
    NameIsFree(lines, accounts, a.name);
    StoresMore(lines, accounts, a);
    assert (accounts + [a])[|accounts|] == a;
    StoredLogin(lines + [FormatLine(|lines| + 1, a)], accounts + [a], |accounts|);
  }

  lemma CreationOfTaken(lines: seq<Text>, accounts: seq<Account>, a: Account, i: nat)
    requires Stores(lines, accounts) && i < |accounts| && accounts[i].name <= a.name
    ensures CreateUser(lines, a) == (ERR_USERNAME_EXIST, lines)
  {
    StoredRows(lines, accounts);
    assert Rows(lines)[i].name <= a.name;
  }

  /** Creation either changes nothing, because a stored name begins the new one, or stores the account. */
  lemma CreationStores(lines: seq<Text>, accounts: seq<Account>, a: Account)
    requires Stores(lines, accounts) && Legal(a)
    ensures var (uid, lines') := CreateUser(lines, a);
            var taken := exists i :: 0 <= i < |accounts| && accounts[i].name <= a.name;
            && (taken ==> uid == ERR_USERNAME_EXIST && lines' == lines)
            && (!taken ==> uid == |accounts| + 1 && Stores(lines', accounts + [a]))
            && (!taken ==> MatchUserPw(Rows(lines'), a.name, a.password) == uid)
  {
    if i :| 0 <= i < |accounts| && accounts[i].name <= a.name {
      CreationOfTaken(lines, accounts, a, i);
    } else {
      CreationOfNew(lines, accounts, a);
    }
  }

  function CreateUsers(lines: seq<Text>, requests: seq<Account>): seq<Text>
    decreases |requests|
  {
    if requests == [] then lines else CreateUsers(CreateUser(lines, requests[0]).1, requests[1..])
  }

  /** After any sequence of creations the file still stores accounts, the earlier ones first and
      unchanged. */
  lemma {:induction false} CreationsKeepAccounts(lines: seq<Text>, accounts: seq<Account>, requests: seq<Account>)
      returns (accounts': seq<Account>)
    requires Stores(lines, accounts) && AllLegal(requests)
    ensures Stores(CreateUsers(lines, requests), accounts') && accounts <= accounts'
    decreases |requests|
  {
    if requests == [] {
      accounts' := accounts;
    } else {
      CreationStores(lines, accounts, requests[0]);
      var (uid, lines') := CreateUser(lines, requests[0]);
      var accounts1 := if uid == ERR_USERNAME_EXIST then accounts else accounts + [requests[0]];
      accounts' := CreationsKeepAccounts(lines', accounts1, requests[1..]);
    }
  }

  /** Starting from an empty file, any sequence of creations leaves accounts numbered by their lines,
      no name beginning a later one, and every account ever stored answers to its name, its uid and
      its credentials after any number of later creations. */
  lemma AccountsAreStable(requests: seq<Account>, later: seq<Account>) returns (accounts: seq<Account>)
    requires AllLegal(requests) && AllLegal(later)
    ensures Stores(CreateUsers([], requests), accounts)
    ensures var rows := Rows(CreateUsers(CreateUsers([], requests), later));
            forall i :: 0 <= i < |accounts| ==>
              && FindUid(rows, accounts[i].name) == i + 1
              && FindUsername(rows, i + 1) == Some(accounts[i].name)
              && MatchUserPw(rows, accounts[i].name, accounts[i].password) == i + 1
  {
    accounts := CreationsKeepAccounts([], [], requests);
    var lines := CreateUsers([], requests);
    var all := CreationsKeepAccounts(lines, accounts, later);
    StoredRows(CreateUsers(lines, later), all);
    var rows := Rows(CreateUsers(lines, later));
    forall i | 0 <= i < |accounts|
      ensures FindUid(rows, accounts[i].name) == i + 1
      ensures FindUsername(rows, i + 1) == Some(accounts[i].name)
      ensures MatchUserPw(rows, accounts[i].name, accounts[i].password) == i + 1
    {
      assert all[i] == accounts[i];
      ListedAccountIsFound(rows, all, i);
    }
  }

  lemma LoginYieldsRow(rows: seq<Row>, accounts: seq<Account>, name: Text, password: Text, i: nat)
    requires Lists(rows, accounts) && i < |accounts|
    ensures MatchUserPw(rows, name, password) == i + 1 <==>
            && accounts[i].name <= name && accounts[i].password <= password
            && forall j :: 0 <= j < i ==> !(accounts[j].name <= name && accounts[j].password <= password)
  {
    var r := LoginRow(rows, name, password, 0);
    assert Admits(rows[i], name, password) <==> accounts[i].name <= name && accounts[i].password <= password;
    forall j | 0 <= j < i ensures Admits(rows[j], name, password) <==> accounts[j].name <= name && accounts[j].password <= password {
    }
    if r < |rows| {
      assert rows[r].uid == r + 1 && Admits(rows[r], name, password);
    }
  }

  /** The uids a login can yield. A lookup compares only as many characters as are stored, so a longer
      name or password passes too: login yields the first account whose name and password begin what
      was given. */
  lemma LoginYieldsIff(lines: seq<Text>, accounts: seq<Account>, name: Text, password: Text, i: nat)
    requires Stores(lines, accounts) && i < |accounts|
    ensures MatchUserPw(Rows(lines), name, password) == i + 1 <==>
            && accounts[i].name <= name && accounts[i].password <= password
            && forall j :: 0 <= j < i ==> !(accounts[j].name <= name && accounts[j].password <= password)
  {
    StoredRows(lines, accounts);
    LoginYieldsRow(Rows(lines), accounts, name, password, i);
  }

  lemma LoginRowAccepts(rows: seq<Row>, accounts: seq<Account>, name: Text, password: Text)
    requires Lists(rows, accounts)
    ensures MatchUserPw(rows, name, password) > 0
       <==> exists i :: 0 <= i < |accounts| && accounts[i].name <= name && accounts[i].password <= password
    ensures MatchUserPw(rows, name, password) <= 0 ==> MatchUserPw(rows, name, password) == -10
    ensures MatchUserPw(rows, name, password) <= |accounts|
  {
    var r := LoginRow(rows, name, password, 0);
    if r < |rows| {
      assert accounts[r].name <= name && accounts[r].password <= password;
    } else {
      forall i | 0 <= i < |accounts| ensures !(accounts[i].name <= name && accounts[i].password <= password) {
        assert !Admits(rows[i], name, password);
      }
    }
  }

  /** A login is accepted if and only if the name and password of some account begin what was given; it is
      refused with -10 otherwise. */
  lemma LoginAcceptedIff(lines: seq<Text>, accounts: seq<Account>, name: Text, password: Text)
    requires Stores(lines, accounts)
    ensures MatchUserPw(Rows(lines), name, password) > 0
       <==> exists i :: 0 <= i < |accounts| && accounts[i].name <= name && accounts[i].password <= password
    ensures MatchUserPw(Rows(lines), name, password) <= 0 ==> MatchUserPw(Rows(lines), name, password) == -10
    ensures MatchUserPw(Rows(lines), name, password) <= |accounts|
  {
    StoredRows(lines, accounts);
    LoginRowAccepts(Rows(lines), accounts, name, password);
  }

  lemma FindUidYieldsRow(rows: seq<Row>, accounts: seq<Account>, name: Text, i: nat)
    requires Lists(rows, accounts) && i < |accounts|
    ensures FindUid(rows, name) == i + 1
       <==> accounts[i].name <= name && forall j :: 0 <= j < i ==> !(accounts[j].name <= name)
  {
    var r := NameRow(rows, name, 0);
    assert forall j :: 0 <= j <= i ==> rows[j].name == accounts[j].name;
    if r < |rows| {
      assert rows[r].uid == r + 1 && rows[r].name <= name;
    }
  }

  /** The uids a lookup of a name can yield: that of the first account whose name begins the given one. */
  lemma FindUidYieldsIff(lines: seq<Text>, accounts: seq<Account>, name: Text, i: nat)
    requires Stores(lines, accounts) && i < |accounts|
    ensures FindUid(Rows(lines), name) == i + 1
       <==> accounts[i].name <= name && forall j :: 0 <= j < i ==> !(accounts[j].name <= name)
  {
    StoredRows(lines, accounts);
    FindUidYieldsRow(Rows(lines), accounts, name, i);
  }

  /** A name that is not registered is found all the same if and only if some stored name is a proper
      beginning of it. */
  lemma UnregisteredIsFoundIff(lines: seq<Text>, accounts: seq<Account>, name: Text)
    requires Stores(lines, accounts) && forall i :: 0 <= i < |accounts| ==> accounts[i].name != name
    ensures FindUid(Rows(lines), name) > 0 <==> exists i :: 0 <= i < |accounts| && accounts[i].name < name
  {
    StoredRows(lines, accounts);
    var r := NameRow(Rows(lines), name, 0);
    if r < |lines| {
      assert accounts[r].name < name;
    } else {
      forall i | 0 <= i < |accounts| ensures !(accounts[i].name < name) {
        assert !(Rows(lines)[i].name <= name);
      }
    }
  }

  /** A lookup that finds nothing answers -10. */
  lemma UnknownNameIsMissing(lines: seq<Text>, accounts: seq<Account>, name: Text)
    requires Stores(lines, accounts) && forall i :: 0 <= i < |accounts| ==> !(accounts[i].name <= name)
    ensures FindUid(Rows(lines), name) == -10
  {
    NameIsFree(lines, accounts, name);
  }

  /** Only the uids 1, 2, ... up to the number of accounts have names. */
  lemma UnknownUidHasNoName(lines: seq<Text>, accounts: seq<Account>, uid: int)
    requires Stores(lines, accounts) && !(1 <= uid <= |accounts|)
    ensures FindUsername(Rows(lines), uid) == None
  {
    StoredRows(lines, accounts);
    assert forall r :: 0 <= r < |accounts| ==> Rows(lines)[r].uid == r + 1;
  }

  const BOB: Account := Account([98, 111, 98], [112, 119])

  /** With only "bob" and his password "pw" stored, "bobby" with the password "pwx" is logged in as uid 1,
      and "bobby", whom nobody registered, is found. */
  lemma BobbyIsTakenForBob()
    ensures var lines := CreateUsers([], [BOB]);
            && MatchUserPw(Rows(lines), [98, 111, 98, 98, 121], [112, 119, 120]) == 1
            && FindUid(Rows(lines), [98, 111, 98, 98, 121]) == 1
  {
    CreationOfNew([], [], BOB);
    var lines := CreateUser([], BOB).1;
    assert [BOB][1..] == [] && CreateUsers([], [BOB]) == CreateUsers(lines, []);
    assert [] + [BOB] == [BOB];
    LoginYieldsIff(lines, [BOB], [98, 111, 98, 98, 121], [112, 119, 120], 0);
    FindUidYieldsIff(lines, [BOB], [98, 111, 98, 98, 121], 0);
  }

  // ---------------------------------------------------------------------------------------------
  // The scanning loops
  // ---------------------------------------------------------------------------------------------

  /** sscanf's %d reads a number that fits an int. */
  predicate Digits(token: Text) {
    1 <= |token| <= 9 && forall i :: 0 <= i < |token| ==> 48 <= token[i] <= 57
  }

  /** Every line begins with a number. */
  ghost predicate Numbered(lines: seq<Text>) {
    forall i :: 0 <= i < |lines| ==> Digits(UidToken(lines[i]))
  }

  /** The scans use the words they cut out without a check. A missing word begins everything, so only the
      line a scan stops at can lack one. */
  predicate NameRowIsThere(lines: seq<Text>, name: Text) {
    var r := NameRow(Rows(lines), name, 0);
    r < |lines| ==> NameToken(lines[r]) != []
  }

  predicate LoginRowIsThere(lines: seq<Text>, name: Text, password: Text) {
    var r := LoginRow(Rows(lines), name, password, 0);
    r < |lines| ==> NameToken(lines[r]) != [] && PasswordToken(lines[r]) != []
  }

  /** The name found is copied into a buffer of eight bytes and used as a text. */
  predicate UidRowFits(lines: seq<Text>, uid: int) {
    var r := UidRow(Rows(lines), uid, 0);
    r < |lines| ==> 1 <= |NameToken(lines[r])| <= 7
  }

  lemma StoredLine(lines: seq<Text>, accounts: seq<Account>, i: nat)
    requires Stores(lines, accounts) && |lines| < 100000 && i < |lines|
    ensures Digits(UidToken(lines[i])) && 1 <= |NameToken(lines[i])| <= 7 && PasswordToken(lines[i]) != []
  {
    LineRoundTrip(i + 1, accounts[i]);
    LineUid(i + 1, accounts[i]);
    assert TenTo(3) == 1000 && TenTo(6) == 1000000;
    DecimalIsShort(i + 1, 6);
  }

  /** In a file of accounts every scan finds its words. */
  lemma StoredIsReadable(lines: seq<Text>, accounts: seq<Account>)
    requires Stores(lines, accounts) && |lines| < 100000
    ensures Numbered(lines)
    ensures forall i :: 0 <= i < |lines| ==> 1 <= |NameToken(lines[i])| <= 7 && PasswordToken(lines[i]) != []
  {
    forall i | 0 <= i < |lines|
      ensures Digits(UidToken(lines[i])) && 1 <= |NameToken(lines[i])| <= 7 && PasswordToken(lines[i]) != []
    {
      StoredLine(lines, accounts, i);
    }
  }

  /** Appending the line of a new account to the file adds exactly that line to what is read. */
  lemma StoredAppend(content: Text, accounts: seq<Account>, a: Account)
    requires Stores(Cut(content), accounts) && Legal(a) && |accounts| + 1 < 100000
    ensures Cut(content + FormatLine(|accounts| + 1, a)) == Cut(content) + [FormatLine(|accounts| + 1, a)]
  {
    var line, n := FormatLine(|accounts| + 1, a), |accounts|;
    if content != [] {
      LastLine(content);
      assert Cut(content)[n - 1] == FormatLine(n, accounts[n - 1]);
    }
    CutAppend(content, line);
    LineFits(n + 1, a);
    NewlinesOfLine(n + 1, a);
    OneLineIff(line);
  }

  /** What create_user does to the file is, for the scans, what it does to the lines. */
  lemma CreationOnFile(content: Text, accounts: seq<Account>, a: Account)
    requires Stores(Cut(content), accounts) && Legal(a) && |accounts| + 1 < 100000
    ensures var r := CreateUser(Cut(content), a);
            Cut(content + if r.0 > 0 then FormatLine(r.0, a) else []) == r.1
  {
    if i :| 0 <= i < |accounts| && accounts[i].name <= a.name {
      CreationOfTaken(Cut(content), accounts, a, i);
      assert content + [] == content;
    } else {
      CreationOfNew(Cut(content), accounts, a);
      StoredAppend(content, accounts, a);
    }
  }

  /** strncmp(given, stored, n) == 0 on C strings. */
  predicate SameStart(given: Text, stored: Text, n: nat)
    requires n <= |stored|
  {
    n <= |given| && given[..n] == stored[..n]
  }

  /** The first two strtok calls on a line; `at` is where the third continues. */
  method CutName(line: Text) returns (uidToken: Text, uname: Text, at: nat)
    ensures uidToken == UidToken(line) && uname == NameToken(line)
    ensures at <= |line| && StrTok(line, at).0 == PasswordToken(line)
  {
    var first := StrTok(line, 0);
    var second := StrTok(line, first.1);
    uidToken, uname, at := first.0, second.0, second.1;
  }

  /** The comparison with the stored password leaves out the last character of the line. */
  method CutPassword(line: Text, at: nat) returns (pw: Text)
    requires at <= |line| && StrTok(line, at).0 == PasswordToken(line) != []
    ensures pw != [] && pw[..|pw| - 1] == RowOf(line).password
  {
    pw := StrTok(line, at).0;
  }

  /** One round of the loops of find_uid and create_user. */
  method NameLine(line: Text, username: Text) returns (uidToken: Text, matched: bool)
    requires NameToken(line) != []
    ensures uidToken == UidToken(line) && (matched <==> RowOf(line).name <= username)
  {
    var uname, at;
    uidToken, uname, at := CutName(line);
    matched := SameStart(username, uname, |uname|);
  }

  /** The line a scan for a name is at has a name: otherwise the scan stops there. */
  lemma ScannedName(lines: seq<Text>, name: Text, i: nat)
    requires NameRowIsThere(lines, name) && i < |lines|
    requires NameRow(Rows(lines), name, 0) == NameRow(Rows(lines), name, i)
    ensures NameToken(lines[i]) != []
  {
    assert Rows(lines)[i] == RowOf(lines[i]);
  }

  /** One round of match_user_pw's loop. */
  method MatchLine(line: Text, username: Text, password: Text) returns (uid: int, matched: bool)
    requires Digits(UidToken(line)) && NameToken(line) != []
    requires NameToken(line) <= username ==> PasswordToken(line) != []
    ensures uid == RowOf(line).uid && (matched <==> Admits(RowOf(line), username, password))
  {
    var uidToken, uname, at := CutName(line);
    uid, matched := ScanDecimal(uidToken), false;
    if SameStart(username, uname, |uname|) {
      var pw := CutPassword(line, at);
      if SameStart(password, pw, |pw| - 1) {
        matched := true;
      }
    }
  }

  /** A line that a login passes over has the words the login used. */
  lemma PassedLine(line: Text, username: Text, password: Text)
    requires !Admits(RowOf(line), username, password)
    ensures NameToken(line) != [] && (NameToken(line) <= username ==> PasswordToken(line) != [])
  {
    TokenIsSpaceless(line, StrTok(line, 0).1);
  }

  /** CREDENTIAL_FILE_NAME */
  class CredentialFile {
    var content: Text

    /** What the scans read. */
    ghost function Lines(): seq<Text>
      reads this
    {
      Cut(content)
    }

    constructor (content: Text)
      ensures this.content == content
    {
      this.content := content;
    }

    /** find_uid */
    method FindUidOf(username: Text) returns (status: int)
      requires Numbered(Lines()) && NameRowIsThere(Lines(), username)
      ensures status == FindUid(Rows(Lines()), username)
    {
      status := ERR_GENERIC;
      ghost var lines, i := Lines(), 0;
      ghost var rows := Rows(lines);
      var rest := content;
      while rest != []
        invariant Position(lines, i, rest)
        invariant NameRow(rows, username, 0) == NameRow(rows, username, i)
        decreases |rest|
      {
        var line;
        line, rest := NextLine(rest, lines, i);
        ScannedName(lines, username, i);
        var uidToken, matched := NameLine(line, username);
        var uid := ScanDecimal(uidToken);
        if matched {
          return uid;
        }
        i := i + 1;
      }
    }

    /** find_username; the text is what the callers' zeroed buffer then reads as. */
    method FindUsernameOf(inId: Uint16) returns (name: Option<Text>)
      requires Numbered(Lines()) && UidRowFits(Lines(), inId)
      ensures name == FindUsername(Rows(Lines()), inId)
    {
      ghost var lines, i := Lines(), 0;
      ghost var rows := Rows(lines);
      var rest := content;
      while rest != []
        invariant Position(lines, i, rest)
        invariant UidRow(rows, inId, 0) == UidRow(rows, inId, i)
        decreases |rest|
      {
        var line;
        line, rest := NextLine(rest, lines, i);
        var uidToken, uname, _ := CutName(line);
        if inId == ScanDecimal(uidToken) {
          return Some(uname);
        }
        i := i + 1;
      }
      return None;
    }

    /** match_user_pw */
    method MatchUserPwOf(username: Text, password: Text) returns (status: int)
      requires Numbered(Lines()) && LoginRowIsThere(Lines(), username, password)
      ensures status == MatchUserPw(Rows(Lines()), username, password)
    {
      status := ERR_GENERIC;
      ghost var lines, i := Lines(), 0;
      ghost var rows := Rows(lines);
      var rest := content;
      while rest != []
        invariant Position(lines, i, rest)
        invariant LoginRow(rows, username, password, 0) == LoginRow(rows, username, password, i)
        decreases |rest|
      {
        var line;
        line, rest := NextLine(rest, lines, i);
        if !Admits(RowOf(line), username, password) {
          PassedLine(line, username, password);
        }
        var uid, matched := MatchLine(line, username, password);
        if matched {
          return uid;
        }
        i := i + 1;
      }
    }

    /** create_user */
    method CreateUserOf(username: Text, password: Text) returns (status: int)
      requires NameRowIsThere(Lines(), username)
      modifies this
      ensures status == CreateUser(old(Lines()), Account(username, password)).0
      ensures content == old(content) + if status > 0 then FormatLine(status, Account(username, password)) else []
    {
      ghost var lines := Lines();
      ghost var rows := Rows(lines);
      var count, rest := 1, content;
      while rest != []
        invariant count >= 1 && content == old(content) && Position(lines, count - 1, rest)
        invariant NameRow(rows, username, 0) == NameRow(rows, username, count - 1)
        decreases |rest|
      {
        var line;
        line, rest := NextLine(rest, lines, count - 1);
        ScannedName(lines, username, count - 1);
        count := count + 1;
        var _, matched := NameLine(line, username);
        if matched {
          return ERR_USERNAME_EXIST;
        }
      }
      content := content + FormatLine(count, Account(username, password));
      status := count;
    }
  }
}
