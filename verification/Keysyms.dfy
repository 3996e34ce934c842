/** keysyms.c: which keysym a key produces in a column of the keyboard mapping, and which keys produce a
    keysym. The rules are those of section 5 (Keyboards) of the X Window System Protocol, Version 11. */
module Keysyms {
  import opened Basics

  type Keysym = k: int | 0 <= k < 0x1_0000_0000
  type Keycode = k: int | 0 <= k < 0x100

  const NO_SYMBOL: Keysym := 0

  /** xcb_convert_case: a keysym without two cases is its own lower and upper form. */
  datatype Case = Case(lower: Keysym -> Keysym, upper: Keysym -> Keysym)

  ghost predicate ProperCase(cc: Case) {
    && cc.lower(NO_SYMBOL) == cc.upper(NO_SYMBOL) == NO_SYMBOL
    && forall k :: cc.lower(k) == cc.upper(k) ==> cc.lower(k) == k
  }

  /** The mapping the server sent: `per` keysyms for each keycode from `min` to `max`. */
  datatype Mapping = Mapping(min: Keycode, max: Keycode, per: nat, keysyms: seq<Keysym>)

  ghost predicate Complete(m: Mapping) {
    m.per >= 1 && (m.min <= m.max ==> |m.keysyms| == (m.max - m.min + 1) * m.per)
  }

  lemma Multiples(k: nat, rows: nat, per: nat)
    requires k < rows
    ensures 0 <= k * per && k * per + per <= rows * per
  {
    assert rows * per == k * per + per + (rows - k - 1) * per;
  }

  lemma RowFits(m: Mapping, keycode: Keycode)
    requires Complete(m) && m.min <= keycode <= m.max
    ensures 0 <= (keycode - m.min) * m.per && (keycode - m.min) * m.per + m.per <= |m.keysyms|
  {
    Multiples(keycode - m.min, m.max - m.min + 1, m.per);
  }

  function Row(m: Mapping, keycode: Keycode): (row: seq<Keysym>)
    requires Complete(m) && m.min <= keycode <= m.max
    ensures |row| == m.per
  {
    RowFits(m, keycode);
    m.keysyms[(keycode - m.min) * m.per..(keycode - m.min) * m.per + m.per]
  }

  /** How long a row is without its padding, but not shorter than two. */
  function Trimmed(row: seq<Keysym>, per: nat): (n: nat)
    requires per <= |row|
    ensures n <= per && (per >= 1 ==> n >= 1)
  {
    if per > 2 && row[per - 1] == NO_SYMBOL then Trimmed(row, per - 1) else per
  }

  /** What column `col` of a group gives, `per` entries of the row being there. */
  function InGroup(cc: Case, row: seq<Keysym>, per: nat, col: nat): Keysym
    requires col < 4 && col / 2 * 2 < per <= |row|
  {
    var first := col / 2 * 2;
    if per <= first + 1 || row[first + 1] == NO_SYMBOL then
      if col % 2 == 0 then cc.lower(row[first])
      else if cc.upper(row[first]) == cc.lower(row[first]) then NO_SYMBOL
      else cc.upper(row[first])
    else row[col]
  }

  /** The keysym of a row and a column. */
  function Lookup(cc: Case, row: seq<Keysym>, col: int): Keysym
    requires row != []
  {
    if col < 0 || (col >= |row| && col > 3) then NO_SYMBOL
    else if col >= 4 then row[col]
    else if col < 2 then InGroup(cc, row, |row|, col)
    else
      var per := Trimmed(row, |row|);
      InGroup(cc, row, per, if per < 3 then col - 2 else col)
  }

  /** xcb_key_symbols_get_keysym from the row on (keysyms.c:219-240). */
  method GetColumn(cc: Case, keysyms: seq<Keysym>, column: nat) returns (keysym: Keysym)
    requires keysyms != [] && (column < |keysyms| || column <= 3)
    ensures keysym == Lookup(cc, keysyms, column)
  {
    var per, col := |keysyms|, column;
    if col < 4 {
      if col > 1 {
        while per > 2 && keysyms[per - 1] == NO_SYMBOL
          invariant 1 <= per <= |keysyms| && Trimmed(keysyms, |keysyms|) == Trimmed(keysyms, per)
        {
          per := per - 1;
        }
        if per < 3 {
          col := col - 2;
        }
      }
      var first := if col % 2 == 0 then col else col - 1;
      if per <= first + 1 || keysyms[first + 1] == NO_SYMBOL {
        var lsym, usym := cc.lower(keysyms[first]), cc.upper(keysyms[first]);
        if col % 2 == 0 {
          return lsym;
        } else if usym == lsym {
          return NO_SYMBOL;
        } else {
          return usym;
        }
      }
    }
    keysym := keysyms[col];
  }

  /** The keysyms of one key. */
  method RowAt(m: Mapping, keycode: Keycode) returns (row: seq<Keysym>)
    requires Complete(m) && m.min <= keycode <= m.max
    ensures row == Row(m, keycode)
  {
    RowFits(m, keycode);
    var at := (keycode - m.min) * m.per;
    row := m.keysyms[at..at + m.per];
  }

  /** xcb_key_symbols_get_keysym; `mapping` is None when there is no connection or no reply. */
  method GetKeysym(cc: Case, mapping: Option<Mapping>, keycode: Keycode, column: int) returns (keysym: Keysym)
    requires mapping.Some? ==> Complete(mapping.value)
    ensures keysym == if mapping.Some? && mapping.value.min <= keycode <= mapping.value.max
                      then Lookup(cc, Row(mapping.value, keycode), column) else NO_SYMBOL
  {
    if mapping.None? {
      return NO_SYMBOL;
    }
    var m := mapping.value;
    if column < 0 || (column >= m.per && column > 3) || keycode < m.min || keycode > m.max {
      return NO_SYMBOL;
    }
    var row := RowAt(m, keycode);
    keysym := GetColumn(cc, row, column);
  }

  // ---------------------------------------------------------------------------------------------
  // Padding and groups
  // ---------------------------------------------------------------------------------------------

  lemma {:induction false} TrimmedPrefix(row: seq<Keysym>, padding: seq<Keysym>, per: nat)
    requires per <= |row|
    ensures Trimmed(row + padding, per) == Trimmed(row, per) && (per > 2 ==> Trimmed(row, per) >= 2)
  {
    if per > 2 && row[per - 1] == NO_SYMBOL {
      TrimmedPrefix(row, padding, per - 1);
    }
  }

  lemma {:induction false} TrimmedPadding(row: seq<Keysym>, padding: seq<Keysym>, per: nat)
    requires row != [] && |row| <= per <= |row| + |padding|
    requires forall i :: 0 <= i < |padding| ==> padding[i] == NO_SYMBOL
    ensures var n := Trimmed(row + padding, per);
            if per > 2 && Trimmed(row, |row|) < 3 then n == 2
            else if per > 2 then n == Trimmed(row, |row|) else n == per
    decreases per
  {
    if per > |row| {
      assert (row + padding)[per - 1] == padding[per - 1 - |row|];
      if per > 2 {
        TrimmedPadding(row, padding, per - 1);
      }
    } else {
      TrimmedPrefix(row, padding, per);
    }
  }

  /** Trailing NoSymbol entries never matter: padding a row changes no column. */
  lemma PaddingIsIgnored(cc: Case, row: seq<Keysym>, padding: seq<Keysym>, col: int)
    requires row != [] && forall i :: 0 <= i < |padding| ==> padding[i] == NO_SYMBOL
    ensures Lookup(cc, row + padding, col) == Lookup(cc, row, col)
  {
    var wide := row + padding;
    if 2 <= col < 4 {
      TrimmedPadding(row, padding, |wide|);
      TrimmedPrefix(row, padding, |row|);
    }
    assert forall i :: |row| <= i < |wide| ==> wide[i] == padding[i - |row|];
  }

  lemma {:induction false} TrimmedIsBlank(row: seq<Keysym>, per: nat)
    requires per <= |row|
    ensures forall i :: Trimmed(row, per) <= i < per ==> row[i] == NO_SYMBOL
    ensures per >= 2 ==> Trimmed(row, per) >= 2
    ensures Trimmed(row, per) > 2 ==> row[Trimmed(row, per) - 1] != NO_SYMBOL
    ensures per < 2 ==> Trimmed(row, per) == per
  {
    if per > 2 && row[per - 1] == NO_SYMBOL {
      TrimmedIsBlank(row, per - 1);
    }
  }

  /** A row with at most two entries, padding aside, uses group 1 as group 2. */
  lemma ShortRowRepeatsGroup(cc: Case, row: seq<Keysym>, col: nat)
    requires row != [] && col < 2 && Trimmed(row, |row|) < 3
    ensures Lookup(cc, row, col + 2) == Lookup(cc, row, col)
  {
    TrimmedIsBlank(row, |row|);
  }

  // ---------------------------------------------------------------------------------------------
  // The protocol's rules
  // ---------------------------------------------------------------------------------------------

  function DropPadding(row: seq<Keysym>): seq<Keysym> {
    if row != [] && row[|row| - 1] == NO_SYMBOL then DropPadding(row[..|row| - 1]) else row
  }

  /** The four entries a row stands for, and each group filled up: the second keysym missing, a keysym
      with two cases gives its lower and its upper form, any other is repeated. */
  function ProtocolEntry(row: seq<Keysym>, i: nat): Keysym
    requires i < 4
  {
    var r := DropPadding(row);
    if |r| <= 2 then (if i % 2 < |r| then r[i % 2] else NO_SYMBOL)
    else if i < |r| then r[i] else NO_SYMBOL
  }

  function ProtocolKeysym(cc: Case, row: seq<Keysym>, col: nat): Keysym
    requires col < 4
  {
    var first, second := ProtocolEntry(row, col / 2 * 2), ProtocolEntry(row, col / 2 * 2 + 1);
    if second != NO_SYMBOL then (if col % 2 == 0 then first else second)
    else if cc.lower(first) != cc.upper(first) then (if col % 2 == 0 then cc.lower(first) else cc.upper(first))
    else first
  }

  lemma {:induction false} DropPaddingIsPrefix(row: seq<Keysym>)
    ensures var r := DropPadding(row);
            r <= row && (forall i :: |r| <= i < |row| ==> row[i] == NO_SYMBOL)
            && (r != [] ==> r[|r| - 1] != NO_SYMBOL)
  {
    if row != [] && row[|row| - 1] == NO_SYMBOL {
      DropPaddingIsPrefix(row[..|row| - 1]);
    }
  }

  lemma {:induction false} DropPaddingIsTrimmed(row: seq<Keysym>)
    requires row != []
    ensures var r, n := DropPadding(row), Trimmed(row, |row|);
            && r <= row && (forall i :: |r| <= i < |row| ==> row[i] == NO_SYMBOL)
            && (n < 3 <==> |r| <= 2) && (n >= 3 ==> |r| == n)
  {
    DropPaddingIsPrefix(row);
    TrimmedIsBlank(row, |row|);
    var r, n := DropPadding(row), Trimmed(row, |row|);
    if n >= 3 {
      assert row[n - 1] != NO_SYMBOL;
    }
  }

  /** The code follows the protocol in the first four columns except for one case: where the second
      keysym of a group is missing and the first has no case, the protocol repeats the first and the
      code answers NoSymbol in the second column. */
  lemma FollowsProtocolIff(cc: Case, row: seq<Keysym>, col: nat)
    requires row != [] && col < 4 && ProperCase(cc)
    ensures var first, second := ProtocolEntry(row, col / 2 * 2), ProtocolEntry(row, col / 2 * 2 + 1);
            Lookup(cc, row, col) == ProtocolKeysym(cc, row, col)
            <==> !(col % 2 == 1 && second == NO_SYMBOL && first != NO_SYMBOL && cc.lower(first) == cc.upper(first))
  {
    DropPaddingIsTrimmed(row);
    TrimmedIsBlank(row, |row|);
  }

  /** A key that carries only the digit 1, which has no case: the protocol gives 1 with Shift, the code
      nothing. */
  lemma ShiftedDigitIsLost(cc: Case)
    requires cc.lower(0x31) == cc.upper(0x31) == 0x31
    ensures Lookup(cc, [0x31], 1) == NO_SYMBOL && ProtocolKeysym(cc, [0x31], 1) == 0x31
  {
    assert DropPadding([0x31]) == [0x31];
  }

  /** Every other column: from the fifth on the row speaks for itself, and outside the row there is nothing. */
  lemma OtherColumns(cc: Case, row: seq<Keysym>, col: int)
    requires row != [] && (col < 0 || col >= 4)
    ensures Lookup(cc, row, col) == if 0 <= col < |row| then row[col] else NO_SYMBOL
  {
  }

  // ---------------------------------------------------------------------------------------------
  // The inverse search
  // ---------------------------------------------------------------------------------------------

  ghost predicate Produces(cc: Case, m: Mapping, keycode: Keycode, keysym: Keysym)
    requires Complete(m)
  {
    m.min <= keycode <= m.max && exists j :: 0 <= j < m.per && Lookup(cc, Row(m, keycode), j) == keysym
  }

  /** The keycodes at or after `i` that produce the keysym, ascending. */
  ghost function KeycodesFrom(cc: Case, m: Mapping, keysym: Keysym, i: nat): seq<Keycode>
    requires Complete(m)
    decreases m.max + 1 - i
  {
    if i > m.max then []
    else (if Produces(cc, m, i, keysym) then [i] else []) + KeycodesFrom(cc, m, keysym, i + 1)
  }

  /** That list holds exactly the producing keycodes, in ascending order, each once. */
  lemma {:induction false} KeycodesAreExact(cc: Case, m: Mapping, keysym: Keysym, i: nat)
    requires Complete(m)
    ensures var ks := KeycodesFrom(cc, m, keysym, i);
            && (forall k: Keycode :: k in ks <==> i <= k && Produces(cc, m, k, keysym))
            && (forall a :: 0 <= a < |ks| ==> i <= ks[a])
            && (forall a, b :: 0 <= a < b < |ks| ==> ks[a] < ks[b])
    decreases m.max + 1 - i
  {
    if i <= m.max {
      KeycodesAreExact(cc, m, keysym, i + 1);
    }
  }

  /** The keycodes that the search finds: none when they start at 0. */
  ghost function Searched(cc: Case, m: Mapping, keysym: Keysym): seq<Keycode>
    requires Complete(m)
  {
    if m.min == 0 then [] else KeycodesFrom(cc, m, keysym, m.min)
  }

  /** The inner loop: does some column of this key give the keysym? */
  method HasColumn(cc: Case, m: Mapping, i: Keycode, keysym: Keysym) returns (found: bool)
    requires Complete(m) && m.min <= i <= m.max
    ensures found <==> Produces(cc, m, i, keysym)
  {
    var j := 0;
    while j < m.per
      invariant 0 <= j <= m.per && forall k :: 0 <= k < j ==> Lookup(cc, Row(m, i), k) != keysym
    {
      var ks := GetKeysym(cc, Some(m), i, j);
      if ks == keysym {
        return true;
      }
      j := j + 1;
    }
    return false;
  }

  /** One keycode moves from those to come to those found. */
  lemma NextKeycodes(cc: Case, m: Mapping, keysym: Keysym, i: Keycode, found: seq<Keycode>)
    requires Complete(m) && i <= m.max
    ensures found + KeycodesFrom(cc, m, keysym, i)
         == (if Produces(cc, m, i, keysym) then found + [i] else found) + KeycodesFrom(cc, m, keysym, i + 1)
  {
  }

  /** xcb_key_symbols_get_keycode: the keycodes followed by NoSymbol, or NULL for none. The counter is
      8 bits wide; stopping at 0 ends the loop also when `max` is 255. */
  method GetKeycode(cc: Case, mapping: Option<Mapping>, keysym: Keysym) returns (result: Option<seq<Keycode>>)
    requires mapping.Some? ==> Complete(mapping.value)
    ensures result == if mapping.None? || Searched(cc, mapping.value, keysym) == [] then None
                      else Some(Searched(cc, mapping.value, keysym) + [0])
  {
    result := None;
    if mapping.None? {
      return;
    }
    var m := mapping.value;
    var found: seq<Keycode> := [];
    ghost var all := KeycodesFrom(cc, m, keysym, m.min);
    var i := m.min;
    while i != 0 && i <= m.max
      invariant m.min == 0 ==> i == 0 && found == []
      invariant m.min > 0 ==> m.min <= i || (i == 0 && m.max == 255)
      invariant m.min > 0 ==> all == found + KeycodesFrom(cc, m, keysym, if i == 0 then 256 else i)
      invariant result == if found == [] then None else Some(found + [0])
      decreases if i == 0 then 0 else 256 - i
    {
      var produces := HasColumn(cc, m, i, keysym);
      ghost var before := found;
      if produces {
        found := found + [i];
        result := Some(found + [0]);
      }
      NextKeycodes(cc, m, keysym, i, before);
      i := (i + 1) % 256;
    }
    assert found + [] == found;
  }

  /** The search finds every key that produces the keysym if and only if keycodes start above 0 or no
      key produces it: with keycodes from 0 the loop ends before it begins. */
  lemma SearchIsCompleteIff(cc: Case, m: Mapping, keysym: Keysym)
    requires Complete(m)
    ensures (forall k: Keycode :: k in Searched(cc, m, keysym) <==> Produces(cc, m, k, keysym))
            <==> m.min > 0 || forall k: Keycode :: !Produces(cc, m, k, keysym)
  {
    KeycodesAreExact(cc, m, keysym, m.min);
  }

  /** A mapping whose keycodes start at 0: key 0 produces the keysym, and the search does not list it. */
  lemma KeycodeZeroIsMissed(cc: Case, keysym: Keysym)
    requires keysym != NO_SYMBOL
    ensures var m := Mapping(0, 0, 2, [keysym, keysym]);
            Complete(m) && Produces(cc, m, 0, keysym) && Searched(cc, m, keysym) == []
  {
    var m := Mapping(0, 0, 2, [keysym, keysym]);
    assert Row(m, 0) == [keysym, keysym];
    assert Lookup(cc, Row(m, 0), 0) == keysym;
  }
}
