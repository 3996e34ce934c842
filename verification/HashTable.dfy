/** The open-addressing table of hashmap.c as a value: what put, get and remove do to the slot array,
    and what the slot array means. Nothing is assumed of the hash function but its range. */
module HashTable {
  import opened Basics

  datatype Key = Key(bits: nat)

  /** hashmap_element */
  datatype Slot = Slot(inUse: bool, key: Key, data: Ptr)

  /** What calloc and hashmap_remove leave in a slot. */
  const BLANK := Slot(false, Key(0), NULL)

  datatype Table = Table(slots: seq<Slot>, size: int)

  datatype Op = Put(key: Key, data: Ptr) | Remove(key: Key)

  type Mix = Key -> nat

  /** hashmap_hash_int: any mixing of the key, reduced to the table. */
  function Home(mix: Mix, key: Key, n: nat): (h: nat)
    requires n > 0
    ensures h < n
  {
    mix(key) % n
  }

  /** The i-th position probed from `home`. */
  function Pos(home: nat, i: nat, n: nat): (p: nat)
    requires home < n && i < n
    ensures p < n
  {
    if home + i < n then home + i else home + i - n
  }

  /** How many steps from `home` position `p` is probed. */
  function Offset(home: nat, p: nat, n: nat): (i: nat)
    requires home < n && p < n
    ensures i < n && Pos(home, i, n) == p
  {
    if p >= home then p - home else p - home + n
  }

  predicate Matches(s: Slot, key: Key) {
    s.inUse && s.key == key
  }

  predicate Stops(s: Slot, key: Key) {
    !s.inUse || s.key == key
  }

  /** First step at or after `i` whose slot is free or holds the key, as put probes; `n` if none. */
  function PutStep(slots: seq<Slot>, home: nat, key: Key, i: nat): (r: nat)
    requires home < |slots| && i <= |slots|
    ensures i <= r <= |slots|
    ensures r < |slots| ==> Stops(slots[Pos(home, r, |slots|)], key)
    ensures forall j :: i <= j < r ==> !Stops(slots[Pos(home, j, |slots|)], key)
    decreases |slots| - i
  {
    if i == |slots| || Stops(slots[Pos(home, i, |slots|)], key) then i else PutStep(slots, home, key, i + 1)
  }

  /** First step at or after `i` whose slot holds the key, as get and remove probe; `n` if none. */
  function KeyStep(slots: seq<Slot>, home: nat, key: Key, i: nat): (r: nat)
    requires home < |slots| && i <= |slots|
    ensures i <= r <= |slots|
    ensures r < |slots| ==> Matches(slots[Pos(home, r, |slots|)], key)
    ensures forall j :: i <= j < r ==> !Matches(slots[Pos(home, j, |slots|)], key)
    decreases |slots| - i
  {
    if i == |slots| || Matches(slots[Pos(home, i, |slots|)], key) then i else KeyStep(slots, home, key, i + 1)
  }

  /** The values stored under a key, in the order a lookup would meet them from step `i` on. */
  function StackFrom(slots: seq<Slot>, home: nat, key: Key, i: nat): seq<Ptr>
    requires home < |slots| && i <= |slots|
    decreases |slots| - i
  {
    if i == |slots| then []
    else
      var s := slots[Pos(home, i, |slots|)];
      (if Matches(s, key) then [s.data] else []) + StackFrom(slots, home, key, i + 1)
  }

  function Stack(mix: Mix, slots: seq<Slot>, key: Key): seq<Ptr>
    requires slots != []
  {
    StackFrom(slots, Home(mix, key, |slots|), key, 0)
  }

  function InUse(slots: seq<Slot>): (c: nat)
    ensures c <= |slots|
  {
    if slots == [] then 0 else InUse(slots[..|slots| - 1]) + if slots[|slots| - 1].inUse then 1 else 0
  }

  /** What every operation keeps: the counter may run ahead of the slots in use, never behind. */
  ghost predicate Sane(t: Table) {
    t.slots != [] && InUse(t.slots) <= t.size <= |t.slots|
  }

  function Write(slots: seq<Slot>, p: nat, key: Key, data: Ptr): seq<Slot>
    requires p < |slots|
  {
    slots[p := Slot(true, key, data)]
  }

  lemma {:induction false} InUseFull(slots: seq<Slot>)
    ensures InUse(slots) == |slots| <==> forall p :: 0 <= p < |slots| ==> slots[p].inUse
  {
    if slots != [] {
      var n := |slots| - 1;
      InUseFull(slots[..n]);
      if forall p :: 0 <= p < |slots| ==> slots[p].inUse {
        assert forall p :: 0 <= p < n ==> slots[..n][p] == slots[p];
      } else {
        var p :| 0 <= p < |slots| && !slots[p].inUse;
        assert p < n ==> slots[..n][p] == slots[p];
      }
    }
  }

  /** A free slot is always reached, wherever the probe starts. */
  lemma RoomIsFound(slots: seq<Slot>, home: nat, key: Key)
    requires InUse(slots) < |slots| && home < |slots|
    ensures PutStep(slots, home, key, 0) < |slots|
  {
    InUseFull(slots);
    var p :| 0 <= p < |slots| && !slots[p].inUse;
    assert Stops(slots[Pos(home, Offset(home, p, |slots|), |slots|)], key);
  }

  /** hashmap_put on a table whose counter has not reached the table size. */
  function PutRoom(mix: Mix, t: Table, key: Key, data: Ptr): Table
    requires Sane(t) && t.size < |t.slots|
  {
    var home := Home(mix, key, |t.slots|);
    var r := PutStep(t.slots, home, key, 0);
    RoomIsFound(t.slots, home, key);
    Table(Write(t.slots, Pos(home, r, |t.slots|), key, data), t.size + 1)
  }

  /** hashmap_remove */
  function RemoveKey(mix: Mix, t: Table, key: Key): Table
    requires t.slots != []
  {
    var home := Home(mix, key, |t.slots|);
    var r := KeyStep(t.slots, home, key, 0);
    if r == |t.slots| then t else Table(t.slots[Pos(home, r, |t.slots|) := BLANK], t.size - 1)
  }

  // ---------------------------------------------------------------------------------------------
  // Counting
  // ---------------------------------------------------------------------------------------------

  lemma {:induction false} InUseAfterWrite(slots: seq<Slot>, p: nat, s: Slot)
    requires p < |slots|
    ensures InUse(slots[p := s]) == InUse(slots) - (if slots[p].inUse then 1 else 0) + if s.inUse then 1 else 0
  {
    var n := |slots| - 1;
    if p < n {
      assert slots[p := s][..n] == slots[..n][p := s];
      InUseAfterWrite(slots[..n], p, s);
    } else {
      assert slots[p := s][..n] == slots[..n];
    }
  }

  lemma {:induction false} InUseNone(slots: seq<Slot>)
    requires forall p :: 0 <= p < |slots| ==> !slots[p].inUse
    ensures InUse(slots) == 0
  {
    if slots != [] {
      InUseNone(slots[..|slots| - 1]);
    }
  }

  lemma PutKeepsSane(mix: Mix, t: Table, key: Key, data: Ptr)
    requires Sane(t) && t.size < |t.slots|
    ensures Sane(PutRoom(mix, t, key, data))
  {
    var home := Home(mix, key, |t.slots|);
    RoomIsFound(t.slots, home, key);
    InUseAfterWrite(t.slots, Pos(home, PutStep(t.slots, home, key, 0), |t.slots|), Slot(true, key, data));
  }

  lemma RemoveKeepsSane(mix: Mix, t: Table, key: Key)
    requires Sane(t)
    ensures Sane(RemoveKey(mix, t, key))
  {
    var home := Home(mix, key, |t.slots|);
    var r := KeyStep(t.slots, home, key, 0);
    if r < |t.slots| {
      InUseAfterWrite(t.slots, Pos(home, r, |t.slots|), BLANK);
    }
  }

  // ---------------------------------------------------------------------------------------------
  // Stacks
  // ---------------------------------------------------------------------------------------------

  /** Steps that do not meet the key add nothing to its stack. */
  lemma {:induction false} SkipMisses(slots: seq<Slot>, home: nat, key: Key, i: nat, r: nat)
    requires home < |slots| && i <= r <= |slots|
    requires forall j :: i <= j < r ==> !Matches(slots[Pos(home, j, |slots|)], key)
    ensures StackFrom(slots, home, key, i) == StackFrom(slots, home, key, r)
    decreases r - i
  {
    if i < r {
      assert !Matches(slots[Pos(home, i, |slots|)], key);
      SkipMisses(slots, home, key, i + 1, r);
    }
  }

  /** A write that involves another key, or happens before step `i`, does not show. */
  lemma {:induction false} StackFrame(slots: seq<Slot>, p: nat, s: Slot, home: nat, key: Key, i: nat)
    requires home < |slots| && i <= |slots| && p < |slots|
    requires Offset(home, p, |slots|) < i || (!Matches(slots[p], key) && !Matches(s, key))
    ensures StackFrom(slots[p := s], home, key, i) == StackFrom(slots, home, key, i)
    decreases |slots| - i
  {
    if i < |slots| {
      StackFrame(slots, p, s, home, key, i + 1);
    }
  }

  /** Get reads the top of the stack: every slot is scanned, so no hole hides a key. */
  lemma KeyStepMeetsTop(mix: Mix, slots: seq<Slot>, key: Key)
    requires slots != []
    ensures var home := Home(mix, key, |slots|);
            var r := KeyStep(slots, home, key, 0);
            if r == |slots| then Stack(mix, slots, key) == []
            else Stack(mix, slots, key) == [slots[Pos(home, r, |slots|)].data] + StackFrom(slots, home, key, r + 1)
  {
    var home := Home(mix, key, |slots|);
    SkipMisses(slots, home, key, 0, KeyStep(slots, home, key, 0));
  }

  /** Did put find the key before any hole? */
  predicate Replaces(mix: Mix, slots: seq<Slot>, key: Key)
    requires slots != []
  {
    var home := Home(mix, key, |slots|);
    var r := PutStep(slots, home, key, 0);
    r < |slots| && Matches(slots[Pos(home, r, |slots|)], key)
  }

  /** Writing the key at a step before which it does not occur puts the value in front of what later
      steps hold; what the written slot held is gone. */
  lemma WriteAtStep(slots: seq<Slot>, home: nat, key: Key, data: Ptr, r: nat)
    requires home < |slots| && r < |slots|
    requires forall j :: 0 <= j < r ==> !Matches(slots[Pos(home, j, |slots|)], key)
    ensures StackFrom(Write(slots, Pos(home, r, |slots|), key, data), home, key, 0)
         == [data] + StackFrom(slots, home, key, r + 1)
  {
    var p := Pos(home, r, |slots|);
    var slots' := Write(slots, p, key, data);
    forall j | 0 <= j < r ensures !Matches(slots'[Pos(home, j, |slots|)], key) {
      assert !Matches(slots[Pos(home, j, |slots|)], key);
    }
    SkipMisses(slots', home, key, 0, r);
    StackFrame(slots, p, Slot(true, key, data), home, key, r + 1);
  }

  /** Put stops in front of everything the key's stack holds, or at its top. */
  lemma StackAtPutStep(mix: Mix, slots: seq<Slot>, key: Key)
    requires slots != [] && PutStep(slots, Home(mix, key, |slots|), key, 0) < |slots|
    ensures var home := Home(mix, key, |slots|);
            var r := PutStep(slots, home, key, 0);
            && (forall j :: 0 <= j < r ==> !Matches(slots[Pos(home, j, |slots|)], key))
            && Stack(mix, slots, key)
               == (if Replaces(mix, slots, key) then [slots[Pos(home, r, |slots|)].data] else [])
                  + StackFrom(slots, home, key, r + 1)
  {
    var home := Home(mix, key, |slots|);
    var r := PutStep(slots, home, key, 0);
    forall j | 0 <= j < r ensures !Matches(slots[Pos(home, j, |slots|)], key) {
      assert !Stops(slots[Pos(home, j, |slots|)], key);
    }
    SkipMisses(slots, home, key, 0, r);
  }

  /** Put replaces the top of the key's stack when it meets the key before a hole, and pushes a new
      top otherwise. */
  lemma PutOnOwnStack(mix: Mix, t: Table, key: Key, data: Ptr)
    requires Sane(t) && t.size < |t.slots|
    ensures var s, s' := Stack(mix, t.slots, key), Stack(mix, PutRoom(mix, t, key, data).slots, key);
            && (Replaces(mix, t.slots, key) ==> s != [] && s' == [data] + s[1..])
            && (!Replaces(mix, t.slots, key) ==> s' == [data] + s)
  {
    var home := Home(mix, key, |t.slots|);
    RoomIsFound(t.slots, home, key);
    StackAtPutStep(mix, t.slots, key);
    WriteAtStep(t.slots, home, key, data, PutStep(t.slots, home, key, 0));
  }

  /** Put leaves every other key's stack alone. */
  lemma PutSparesOthers(mix: Mix, t: Table, key: Key, data: Ptr, other: Key)
    requires Sane(t) && t.size < |t.slots| && other != key
    ensures Stack(mix, PutRoom(mix, t, key, data).slots, other) == Stack(mix, t.slots, other)
  {
    var n := |t.slots|;
    var home := Home(mix, key, n);
    RoomIsFound(t.slots, home, key);
    StackFrame(t.slots, Pos(home, PutStep(t.slots, home, key, 0), n), Slot(true, key, data), Home(mix, other, n), other, 0);
  }

  /** Freeing the slot at the step where the key is first met pops its stack. */
  lemma FreeAtStep(slots: seq<Slot>, home: nat, key: Key, r: nat)
    requires home < |slots| && r < |slots| && r == KeyStep(slots, home, key, 0)
    ensures StackFrom(slots[Pos(home, r, |slots|) := BLANK], home, key, 0) == StackFrom(slots, home, key, r + 1)
  {
    var n, p := |slots|, Pos(home, r, |slots|);
    var slots' := slots[p := BLANK];
    forall j | 0 <= j < r + 1 ensures !Matches(slots'[Pos(home, j, n)], key) {
      assert j < r ==> !Matches(slots[Pos(home, j, n)], key);
    }
    SkipMisses(slots', home, key, 0, r + 1);
    StackFrame(slots, p, BLANK, home, key, r + 1);
  }

  /** Remove pops the key's stack, which may uncover an older value; every other stack is untouched. */
  lemma RemoveOnStacks(mix: Mix, t: Table, key: Key, other: Key)
    requires t.slots != []
    ensures var s, s' := Stack(mix, t.slots, key), Stack(mix, RemoveKey(mix, t, key).slots, key);
            s' == if s == [] then [] else s[1..]
    ensures other != key ==> Stack(mix, RemoveKey(mix, t, key).slots, other) == Stack(mix, t.slots, other)
  {
    var n := |t.slots|;
    var home := Home(mix, key, n);
    var r := KeyStep(t.slots, home, key, 0);
    KeyStepMeetsTop(mix, t.slots, key);
    if r < n {
      FreeAtStep(t.slots, home, key, r);
      if other != key {
        StackFrame(t.slots, Pos(home, r, n), BLANK, Home(mix, other, n), other, 0);
      }
    }
  }

  // ---------------------------------------------------------------------------------------------
  // Rehashing
  // ---------------------------------------------------------------------------------------------

  function Blanks(n: nat): (slots: seq<Slot>)
    ensures |slots| == n && InUse(slots) == 0
  {
    var slots := seq(n, i => BLANK);
    InUseNone(slots);
    slots
  }

  /** The copying loop of hashmap_rehash after `i` slots: every old slot is put, used or not. */
  function Copied(mix: Mix, old_: seq<Slot>, i: nat): (t: Table)
    requires old_ != [] && i <= |old_|
    ensures Sane(t) && t.size == i && |t.slots| == 2 * |old_|
  {
    if i == 0 then Table(Blanks(2 * |old_|), 0)
    else
      var t := Copied(mix, old_, i - 1);
      PutKeepsSane(mix, t, old_[i - 1].key, old_[i - 1].data);
      PutRoom(mix, t, old_[i - 1].key, old_[i - 1].data)
  }

  /** hashmap_rehash: the table size doubles and the counter becomes the old table size. */
  function Rehash(mix: Mix, t: Table): Table
    requires t.slots != []
  {
    Copied(mix, t.slots, |t.slots|)
  }

  /** hashmap_put; one doubling always makes room. */
  function PutAny(mix: Mix, t: Table, key: Key, data: Ptr): (t': Table)
    requires Sane(t)
    ensures Sane(t') && t'.size == t.size + 1
  {
    var room := if t.size == |t.slots| then Rehash(mix, t) else t;
    PutKeepsSane(mix, room, key, data);
    PutRoom(mix, room, key, data)
  }

  /** No used slot has a hole before it on its own probe path. */
  ghost predicate Packed(mix: Mix, slots: seq<Slot>)
    requires slots != []
  {
    forall p, j :: 0 <= p < |slots| && slots[p].inUse && 0 <= j < Offset(Home(mix, slots[p].key, |slots|), p, |slots|)
      ==> slots[Pos(Home(mix, slots[p].key, |slots|), j, |slots|)].inUse
  }

  /** In a packed table put finds the key whenever it is there. */
  lemma PackedReplaces(mix: Mix, slots: seq<Slot>, key: Key)
    requires slots != [] && Packed(mix, slots) && Stack(mix, slots, key) != []
    ensures Replaces(mix, slots, key)
  {
    var n := |slots|;
    var home := Home(mix, key, n);
    var q := KeyStep(slots, home, key, 0);
    KeyStepMeetsTop(mix, slots, key);
    var p := Pos(home, q, n);
    assert slots[p].inUse && Offset(home, p, n) == q;
    var r := PutStep(slots, home, key, 0);
    assert Stops(slots[Pos(home, q, n)], key);
  }

  lemma PutKeepsPacked(mix: Mix, t: Table, key: Key, data: Ptr)
    requires Sane(t) && t.size < |t.slots| && Packed(mix, t.slots)
    ensures Packed(mix, PutRoom(mix, t, key, data).slots)
  {
    var n := |t.slots|;
    var home := Home(mix, key, n);
    RoomIsFound(t.slots, home, key);
    var r := PutStep(t.slots, home, key, 0);
    var q := Pos(home, r, n);
    var slots' := Write(t.slots, q, key, data);
    forall p, j | 0 <= p < n && slots'[p].inUse && 0 <= j < Offset(Home(mix, slots'[p].key, n), p, n)
      ensures slots'[Pos(Home(mix, slots'[p].key, n), j, n)].inUse
    {
      if p == q {
        assert Offset(home, q, n) == r;
        assert !Stops(t.slots[Pos(home, j, n)], key);
      } else {
        assert t.slots[Pos(Home(mix, t.slots[p].key, n), j, n)].inUse;
      }
    }
  }

  /** The value of the last of the first `i` slots whose key field is `key`, whether or not the slot
      is in use. */
  function LastWrite(slots: seq<Slot>, i: nat, key: Key): seq<Ptr>
    requires i <= |slots|
  {
    if i == 0 then []
    else if slots[i - 1].key == key then [slots[i - 1].data]
    else LastWrite(slots, i - 1, key)
  }

  lemma {:induction false} LastWriteIsASlot(slots: seq<Slot>, i: nat, key: Key)
    requires i <= |slots|
    ensures var w := LastWrite(slots, i, key);
            if exists p :: 0 <= p < i && slots[p].key == key
            then exists p :: 0 <= p < i && slots[p].key == key && w == [slots[p].data]
            else w == []
  {
    if i > 0 && slots[i - 1].key != key {
      LastWriteIsASlot(slots, i - 1, key);
    }
  }

  /** A put into a packed table with at most one value for the key leaves exactly the new value. */
  lemma PackedPut(mix: Mix, t: Table, key: Key, data: Ptr, other: Key)
    requires Sane(t) && t.size < |t.slots| && Packed(mix, t.slots) && |Stack(mix, t.slots, key)| <= 1
    ensures var slots' := PutRoom(mix, t, key, data).slots;
            Packed(mix, slots') && Stack(mix, slots', other) == if other == key then [data] else Stack(mix, t.slots, other)
  {
    PutKeepsPacked(mix, t, key, data);
    if other == key {
      PutOnOwnStack(mix, t, key, data);
      if Stack(mix, t.slots, key) != [] {
        PackedReplaces(mix, t.slots, key);
      }
    } else {
      PutSparesOthers(mix, t, key, data, other);
    }
  }

  /** One step of the copying loop, on any table that satisfies the loop's invariant. */
  lemma CopyOne(mix: Mix, t: Table, old_: seq<Slot>, i: nat, key: Key)
    requires Sane(t) && t.size < |t.slots| && Packed(mix, t.slots) && 0 < i <= |old_|
    requires Stack(mix, t.slots, key) == LastWrite(old_, i - 1, key)
    requires Stack(mix, t.slots, old_[i - 1].key) == LastWrite(old_, i - 1, old_[i - 1].key)
    ensures var slots' := PutRoom(mix, t, old_[i - 1].key, old_[i - 1].data).slots;
            Packed(mix, slots') && Stack(mix, slots', key) == LastWrite(old_, i, key)
  {
    LastWriteIsASlot(old_, i - 1, old_[i - 1].key);
    PackedPut(mix, t, old_[i - 1].key, old_[i - 1].data, key);
  }

  lemma BlankStacks(mix: Mix, n: nat, key: Key)
    requires n > 0
    ensures Packed(mix, Blanks(n)) && Stack(mix, Blanks(n), key) == []
  {
    SkipMisses(Blanks(n), Home(mix, key, n), key, 0, n);
  }

  lemma CopyOneMore(mix: Mix, old_: seq<Slot>, i: nat, key: Key)
    requires i < |old_| && Packed(mix, Copied(mix, old_, i).slots)
    requires Stack(mix, Copied(mix, old_, i).slots, key) == LastWrite(old_, i, key)
    requires Stack(mix, Copied(mix, old_, i).slots, old_[i].key) == LastWrite(old_, i, old_[i].key)
    ensures var slots := Copied(mix, old_, i + 1).slots;
            Packed(mix, slots) && Stack(mix, slots, key) == LastWrite(old_, i + 1, key)
  {
    CopyOne(mix, Copied(mix, old_, i), old_, i + 1, key);
  }

  /** What the copying loop keeps: the copied part is packed, and holds each key once, with the value of its
      last old slot. */
  ghost predicate CopiedRight(mix: Mix, slots: seq<Slot>, old_: seq<Slot>, i: nat)
    requires slots != [] && i <= |old_|
  {
    Packed(mix, slots) && forall key {:trigger Stack(mix, slots, key)} :: Stack(mix, slots, key) == LastWrite(old_, i, key)
  }

  lemma CopyKeepsRight(mix: Mix, old_: seq<Slot>, i: nat)
    requires i < |old_| && CopiedRight(mix, Copied(mix, old_, i).slots, old_, i)
    ensures CopiedRight(mix, Copied(mix, old_, i + 1).slots, old_, i + 1)
  {
    var slots, slots' := Copied(mix, old_, i).slots, Copied(mix, old_, i + 1).slots;
    assert Stack(mix, slots, old_[i].key) == LastWrite(old_, i, old_[i].key);
    CopyOneMore(mix, old_, i, old_[i].key);
    forall key ensures Stack(mix, slots', key) == LastWrite(old_, i + 1, key) {
      assert Stack(mix, slots, key) == LastWrite(old_, i, key);
      CopyOneMore(mix, old_, i, key);
    }
  }

  lemma CopiedStacks(mix: Mix, old_: seq<Slot>, i: nat)
    requires old_ != [] && i <= |old_|
    ensures CopiedRight(mix, Copied(mix, old_, i).slots, old_, i)
  {
    forall key ensures Stack(mix, Copied(mix, old_, 0).slots, key) == LastWrite(old_, 0, key) {
      BlankStacks(mix, 2 * |old_|, key);
    }
    BlankStacks(mix, 2 * |old_|, Key(0));
    var n := 0;
    while n < i
      invariant n <= i && CopiedRight(mix, Copied(mix, old_, n).slots, old_, n)
    {
      CopyKeepsRight(mix, old_, n);
      n := n + 1;
    }
  }

  /** Rehashing an arbitrary table: afterwards each key has at most one value, that of the last old
      slot carrying the key in its key field, used or not. */
  lemma RehashStacks(mix: Mix, t: Table, key: Key)
    requires t.slots != []
    ensures var t' := Rehash(mix, t);
            && Sane(t') && t'.size == |t.slots| && |t'.slots| == 2 * |t.slots|
            && Stack(mix, t'.slots, key) == LastWrite(t.slots, |t.slots|, key)
  {
    CopiedStacks(mix, t.slots, |t.slots|);
    assert Stack(mix, Copied(mix, t.slots, |t.slots|).slots, key) == LastWrite(t.slots, |t.slots|, key);
  }

  // ---------------------------------------------------------------------------------------------
  // The table as a map
  // ---------------------------------------------------------------------------------------------

  /** The table stands for this map: each key has its one value, and the counter is exact. */
  ghost predicate Represents(mix: Mix, t: Table, m: map<Key, Ptr>) {
    && Sane(t) && t.size == InUse(t.slots)
    && forall key {:trigger Stack(mix, t.slots, key)} :: Stack(mix, t.slots, key) == if key in m then [m[key]] else []
  }

  /** A key with a slot has that slot's value on its stack. */
  lemma {:induction false} SlotIsOnStack(slots: seq<Slot>, home: nat, key: Key, i: nat, p: nat)
    requires home < |slots| && i <= |slots| && p < |slots| && Matches(slots[p], key) && i <= Offset(home, p, |slots|)
    ensures slots[p].data in StackFrom(slots, home, key, i)
    decreases |slots| - i
  {
    if i < Offset(home, p, |slots|) {
      SlotIsOnStack(slots, home, key, i + 1, p);
    }
  }

  /** Two slots with one key make a stack of at least two. */
  lemma {:induction false} TwoSlotsTwoValues(slots: seq<Slot>, home: nat, key: Key, i: nat, p: nat, q: nat)
    requires home < |slots| && i <= |slots| && p < |slots| && q < |slots|
    requires Matches(slots[p], key) && Matches(slots[q], key)
    requires i <= Offset(home, p, |slots|) < Offset(home, q, |slots|)
    ensures |StackFrom(slots, home, key, i)| >= 2
    decreases |slots| - i
  {
    if i == Offset(home, p, |slots|) {
      SlotIsOnStack(slots, home, key, i + 1, q);
    } else {
      TwoSlotsTwoValues(slots, home, key, i + 1, p, q);
    }
  }

  ghost predicate DistinctKeys(slots: seq<Slot>) {
    forall p, q :: 0 <= p < q < |slots| ==> slots[p].key != slots[q].key
  }

  lemma FullMapIsDistinct(mix: Mix, t: Table, m: map<Key, Ptr>)
    requires Represents(mix, t, m) && t.size == |t.slots|
    ensures DistinctKeys(t.slots)
  {
    InUseFull(t.slots);
    var n := |t.slots|;
    forall p, q | 0 <= p < q < n ensures t.slots[p].key != t.slots[q].key {
      var key := t.slots[p].key;
      if t.slots[q].key == key {
        var home := Home(mix, key, n);
        assert |Stack(mix, t.slots, key)| <= 1;
        if Offset(home, p, n) < Offset(home, q, n) {
          TwoSlotsTwoValues(t.slots, home, key, 0, p, q);
        } else {
          assert Pos(home, Offset(home, p, n), n) == p && Pos(home, Offset(home, q, n), n) == q;
          TwoSlotsTwoValues(t.slots, home, key, 0, q, p);
        }
      }
    }
  }

  /** Put takes a new slot unless it replaces. */
  lemma PutCounts(mix: Mix, t: Table, key: Key, data: Ptr)
    requires Sane(t) && t.size < |t.slots|
    ensures InUse(PutRoom(mix, t, key, data).slots) == InUse(t.slots) + if Replaces(mix, t.slots, key) then 0 else 1
  {
    var home := Home(mix, key, |t.slots|);
    RoomIsFound(t.slots, home, key);
    InUseAfterWrite(t.slots, Pos(home, PutStep(t.slots, home, key, 0), |t.slots|), Slot(true, key, data));
  }

  /** A put of an absent key takes a new slot. */
  lemma AbsentPutCounts(mix: Mix, t: Table, key: Key, data: Ptr)
    requires Sane(t) && t.size < |t.slots| && Stack(mix, t.slots, key) == []
    ensures InUse(PutRoom(mix, t, key, data).slots) == InUse(t.slots) + 1
  {
    PutOnOwnStack(mix, t, key, data);
    PutCounts(mix, t, key, data);
  }

  /** The next slot of a table of distinct keys carries a key that was not copied yet. */
  lemma NextKeyIsNew(mix: Mix, old_: seq<Slot>, i: nat)
    requires i < |old_| && DistinctKeys(old_)
    ensures Stack(mix, Copied(mix, old_, i).slots, old_[i].key) == []
  {
    CopiedStacks(mix, old_, i);
    assert Stack(mix, Copied(mix, old_, i).slots, old_[i].key) == LastWrite(old_, i, old_[i].key);
    LastWriteIsASlot(old_, i, old_[i].key);
  }

  lemma CopiedOneMore(mix: Mix, old_: seq<Slot>, i: nat)
    requires i < |old_| && DistinctKeys(old_)
    ensures InUse(Copied(mix, old_, i + 1).slots) == InUse(Copied(mix, old_, i).slots) + 1
  {
    var t := Copied(mix, old_, i);
    NextKeyIsNew(mix, old_, i);
    AbsentPutCounts(mix, t, old_[i].key, old_[i].data);
  }

  lemma CopiedIsExact(mix: Mix, old_: seq<Slot>, i: nat)
    requires old_ != [] && i <= |old_| && DistinctKeys(old_)
    ensures InUse(Copied(mix, old_, i).slots) == i
  {
    var k := 0;
    while k < i
      invariant k <= i && InUse(Copied(mix, old_, k).slots) == k
    {
      CopiedOneMore(mix, old_, k);
      k := k + 1;
    }
  }

  /** In a full table with at most one value for the key, the last slot with the key is its only one. */
  lemma FullKeyKeepsValue(mix: Mix, slots: seq<Slot>, key: Key)
    requires slots != [] && (forall p :: 0 <= p < |slots| ==> slots[p].inUse) && |Stack(mix, slots, key)| <= 1
    ensures LastWrite(slots, |slots|, key) == Stack(mix, slots, key)
  {
    var n := |slots|;
    LastWriteIsASlot(slots, n, key);
    if p :| 0 <= p < n && slots[p].key == key && LastWrite(slots, n, key) == [slots[p].data] {
      SlotIsOnStack(slots, Home(mix, key, n), key, 0, p);
    } else {
      KeyStepMeetsTop(mix, slots, key);
    }
  }

  /** Rehashing a full table of distinct keys keeps exactly its map. */
  lemma RehashKeepsMap(mix: Mix, t: Table, m: map<Key, Ptr>)
    requires Represents(mix, t, m) && t.size == |t.slots|
    ensures Represents(mix, Rehash(mix, t), m)
  {
    InUseFull(t.slots);
    forall key ensures Stack(mix, Rehash(mix, t).slots, key) == if key in m then [m[key]] else [] {
      RehashStacks(mix, t, key);
      assert Stack(mix, t.slots, key) == if key in m then [m[key]] else [];
      FullKeyKeepsValue(mix, t.slots, key);
    }
    FullMapIsDistinct(mix, t, m);
    CopiedIsExact(mix, t.slots, |t.slots|);
  }

  /** Is there a used slot for key 0 whose value survives the blank slots, which carry key 0 and NULL? */
  ghost predicate ZeroSurvives(slots: seq<Slot>) {
    exists p :: 0 <= p < |slots| && Matches(slots[p], Key(0))
      && (slots[p].data == NULL || forall q :: 0 <= q < |slots| && !slots[q].inUse ==> q < p)
  }

  /** The last slot of a list with a key field `key`. */
  lemma {:induction false} LastWriteIsLast(slots: seq<Slot>, i: nat, key: Key, p: nat)
    requires p < i <= |slots| && slots[p].key == key
    requires forall q :: p < q < i ==> slots[q].key != key
    ensures LastWrite(slots, i, key) == [slots[p].data]
  {
    if p < i - 1 {
      LastWriteIsLast(slots, i - 1, key, p);
    }
  }

  /** The highest unused slot. */
  lemma {:induction false} HighestUnused(slots: seq<Slot>, i: nat) returns (q: nat)
    requires i <= |slots| && exists p :: 0 <= p < i && !slots[p].inUse
    ensures q < i && !slots[q].inUse && forall p :: q < p < i ==> slots[p].inUse
  {
    if !slots[i - 1].inUse {
      q := i - 1;
    } else {
      q := HighestUnused(slots, i - 1);
    }
  }

  /** A key other than 0 keeps its one value over any rehash. */
  lemma NonZeroSurvives(mix: Mix, slots: seq<Slot>, key: Key)
    requires slots != [] && key != Key(0) && |Stack(mix, slots, key)| <= 1
    requires forall p :: 0 <= p < |slots| && !slots[p].inUse ==> slots[p] == BLANK
    ensures LastWrite(slots, |slots|, key) == Stack(mix, slots, key)
  {
    var n := |slots|;
    LastWriteIsASlot(slots, n, key);
    if p :| 0 <= p < n && slots[p].key == key && LastWrite(slots, n, key) == [slots[p].data] {
      SlotIsOnStack(slots, Home(mix, key, n), key, 0, p);
    } else {
      KeyStepMeetsTop(mix, slots, key);
    }
  }

  /** Two used slots for key 0 would make two values. */
  lemma ZeroIsAlone(mix: Mix, slots: seq<Slot>, p: nat)
    requires p < |slots| && Matches(slots[p], Key(0)) && |Stack(mix, slots, Key(0))| <= 1
    ensures forall q :: 0 <= q < |slots| && Matches(slots[q], Key(0)) ==> q == p
  {
    var n := |slots|;
    var home := Home(mix, Key(0), n);
    forall q | 0 <= q < n && Matches(slots[q], Key(0)) ensures q == p {
      assert Pos(home, Offset(home, p, n), n) == p && Pos(home, Offset(home, q, n), n) == q;
      if Offset(home, p, n) < Offset(home, q, n) {
        TwoSlotsTwoValues(slots, home, Key(0), 0, p, q);
      } else if Offset(home, q, n) < Offset(home, p, n) {
        TwoSlotsTwoValues(slots, home, Key(0), 0, q, p);
      }
    }
  }

  /** Key 0 keeps its value, or its absence, exactly when no slot is unused or it survives. */
  lemma ZeroSurvivesIff(mix: Mix, slots: seq<Slot>)
    requires slots != [] && |Stack(mix, slots, Key(0))| <= 1
    requires forall p :: 0 <= p < |slots| && !slots[p].inUse ==> slots[p] == BLANK
    ensures LastWrite(slots, |slots|, Key(0)) == Stack(mix, slots, Key(0))
       <==> (forall p :: 0 <= p < |slots| ==> slots[p].inUse) || ZeroSurvives(slots)
  {
    var n, zero := |slots|, Key(0);
    if forall p :: 0 <= p < n ==> slots[p].inUse {
      FullKeyKeepsValue(mix, slots, zero);
    } else {
      var q := HighestUnused(slots, n);
      KeyStepMeetsTop(mix, slots, zero);
      if p :| 0 <= p < n && Matches(slots[p], zero) {
        SlotIsOnStack(slots, Home(mix, zero, n), zero, 0, p);
        ZeroIsAlone(mix, slots, p);
        LastWriteIsLast(slots, n, zero, if p < q then q else p);
      } else {
        LastWriteIsLast(slots, n, zero, q);
      }
    }
  }

  /** What get answers for a key: the top of its stack. */
  function Found(mix: Mix, slots: seq<Slot>, key: Key): Option<Ptr>
    requires slots != []
  {
    var s := Stack(mix, slots, key);
    if s == [] then None else Some(s[0])
  }

  /** No later slot carries this slot's key, whether in use or not. */
  ghost predicate LastOfKey(slots: seq<Slot>, p: nat) {
    p < |slots| && forall q :: p < q < |slots| ==> slots[q].key != slots[p].key
  }

  /** The slot a probe for this slot's key ends at is in use and holds the same value. */
  predicate ProbeAgrees(mix: Mix, slots: seq<Slot>, p: nat)
    requires p < |slots|
  {
    var home := Home(mix, slots[p].key, |slots|);
    var r := KeyStep(slots, home, slots[p].key, 0);
    r < |slots| && slots[Pos(home, r, |slots|)].data == slots[p].data
  }

  lemma {:induction false} LastSlotOf(slots: seq<Slot>, i: nat, key: Key) returns (p: nat)
    requires i <= |slots| && exists q :: 0 <= q < i && slots[q].key == key
    ensures p < i && slots[p].key == key && forall q :: p < q < i ==> slots[q].key != key
  {
    if slots[i - 1].key == key {
      p := i - 1;
    } else {
      p := LastSlotOf(slots, i - 1, key);
    }
  }

  /** One key survives a rehash if and only if the last slot that carries it, if any, holds what a
      lookup finds. */
  lemma RehashKeepsOneLookup(mix: Mix, t: Table, p: nat)
    requires LastOfKey(t.slots, p)
    ensures Found(mix, Rehash(mix, t).slots, t.slots[p].key) == Found(mix, t.slots, t.slots[p].key)
       <==> ProbeAgrees(mix, t.slots, p)
  {
    var key := t.slots[p].key;
    RehashStacks(mix, t, key);
    LastWriteIsLast(t.slots, |t.slots|, key, p);
    KeyStepMeetsTop(mix, t.slots, key);
  }

  lemma RehashKeepsUncarried(mix: Mix, t: Table, key: Key)
    requires t.slots != [] && forall q :: 0 <= q < |t.slots| ==> t.slots[q].key != key
    ensures Found(mix, Rehash(mix, t).slots, key) == Found(mix, t.slots, key)
  {
    RehashStacks(mix, t, key);
    LastWriteIsASlot(t.slots, |t.slots|, key);
    KeyStepMeetsTop(mix, t.slots, key);
  }

  /** When rehashing keeps every lookup, for any table at all: whatever removals left in unused slots and
      however many values a key has. The rehash puts every slot in turn, so the last slot carrying a key
      decides; all lookups survive if and only if that slot always holds what the probe finds. */
  lemma RehashKeepsLookupsIff(mix: Mix, t: Table)
    requires t.slots != []
    ensures (forall key :: Found(mix, Rehash(mix, t).slots, key) == Found(mix, t.slots, key))
       <==> forall p :: LastOfKey(t.slots, p) ==> ProbeAgrees(mix, t.slots, p)
  {
    if forall key :: Found(mix, Rehash(mix, t).slots, key) == Found(mix, t.slots, key) {
      forall p | LastOfKey(t.slots, p) ensures ProbeAgrees(mix, t.slots, p) {
        RehashKeepsOneLookup(mix, t, p);
      }
    }
    if forall p :: LastOfKey(t.slots, p) ==> ProbeAgrees(mix, t.slots, p) {
      forall key ensures Found(mix, Rehash(mix, t).slots, key) == Found(mix, t.slots, key) {
        if exists q :: 0 <= q < |t.slots| && t.slots[q].key == key {
          var p := LastSlotOf(t.slots, |t.slots|, key);
          assert LastOfKey(t.slots, p);
          RehashKeepsOneLookup(mix, t, p);
        } else {
          RehashKeepsUncarried(mix, t, key);
        }
      }
    }
  }

  /** The case that overwrites lead to: one value a key and blank unused slots. Then all lookups survive
      exactly when no slot is unused or key 0's own value happens to win. */
  lemma BlankSlotsKeepLookupsIff(mix: Mix, t: Table)
    requires t.slots != [] && forall key :: |Stack(mix, t.slots, key)| <= 1
    requires forall p :: 0 <= p < |t.slots| && !t.slots[p].inUse ==> t.slots[p] == BLANK
    ensures (forall key :: Stack(mix, Rehash(mix, t).slots, key) == Stack(mix, t.slots, key))
       <==> (forall p :: 0 <= p < |t.slots| ==> t.slots[p].inUse) || ZeroSurvives(t.slots)
  {
    ZeroSurvivesIff(mix, t.slots);
    forall key ensures key != Key(0) ==> Stack(mix, Rehash(mix, t).slots, key) == Stack(mix, t.slots, key) {
      RehashStacks(mix, t, key);
      if key != Key(0) {
        assert |Stack(mix, t.slots, key)| <= 1;
        NonZeroSurvives(mix, t.slots, key);
      }
    }
    RehashStacks(mix, t, Key(0));
  }

  /** Put of an absent key is map update, even when it has to rehash first. */
  lemma PutAbsentIsUpdate(mix: Mix, t: Table, m: map<Key, Ptr>, key: Key, data: Ptr)
    requires Represents(mix, t, m) && key !in m
    ensures Represents(mix, PutAny(mix, t, key, data), m[key := data])
  {
    var room := if t.size == |t.slots| then Rehash(mix, t) else t;
    if t.size == |t.slots| {
      RehashKeepsMap(mix, t, m);
    }
    PutCounts(mix, room, key, data);
    PutOnOwnStack(mix, room, key, data);
    assert Stack(mix, room.slots, key) == [];
    var t' := PutAny(mix, t, key, data);
    forall other ensures Stack(mix, t'.slots, other) == if other in m[key := data] then [m[key := data][other]] else [] {
      assert Stack(mix, room.slots, other) == if other in m then [m[other]] else [];
      if other != key {
        PutSparesOthers(mix, room, key, data, other);
      }
    }
  }

  /** Remove frees a slot and lowers the counter together. */
  lemma RemoveCounts(mix: Mix, t: Table, key: Key)
    requires Sane(t) && t.size == InUse(t.slots)
    ensures var t' := RemoveKey(mix, t, key); Sane(t') && t'.size == InUse(t'.slots)
  {
    var home := Home(mix, key, |t.slots|);
    var r := KeyStep(t.slots, home, key, 0);
    if r < |t.slots| {
      InUseAfterWrite(t.slots, Pos(home, r, |t.slots|), BLANK);
    }
  }

  lemma RemoveIsDeletionAt(mix: Mix, t: Table, m: map<Key, Ptr>, key: Key, other: Key)
    requires t.slots != [] && Stack(mix, t.slots, other) == if other in m then [m[other]] else []
    ensures Stack(mix, RemoveKey(mix, t, key).slots, other) == if other in m && other != key then [m[other]] else []
  {
    RemoveOnStacks(mix, t, key, other);
  }

  lemma RemoveIsDeletion(mix: Mix, t: Table, m: map<Key, Ptr>, key: Key)
    requires Represents(mix, t, m)
    ensures Represents(mix, RemoveKey(mix, t, key), m - {key})
  {
    RemoveCounts(mix, t, key);
    forall other
      ensures Stack(mix, RemoveKey(mix, t, key).slots, other) == if other in m - {key} then [(m - {key})[other]] else []
    {
      RemoveIsDeletionAt(mix, t, m, key, other);
    }
  }

  function Perform(mix: Mix, t: Table, op: Op): (t': Table)
    requires Sane(t)
    ensures Sane(t')
  {
    match op
    case Put(key, data) => PutAny(mix, t, key, data)
    case Remove(key) => RemoveKeepsSane(mix, t, key); RemoveKey(mix, t, key)
  }

  function PerformAll(mix: Mix, t: Table, ops: seq<Op>): (t': Table)
    requires Sane(t)
    ensures Sane(t')
    decreases |ops|
  {
    if ops == [] then t else PerformAll(mix, Perform(mix, t, ops[0]), ops[1..])
  }

  /** The same operation on a map. */
  function OnMap(m: map<Key, Ptr>, op: Op): map<Key, Ptr> {
    match op
    case Put(key, data) => m[key := data]
    case Remove(key) => m - {key}
  }

  function OnMapAll(m: map<Key, Ptr>, ops: seq<Op>): map<Key, Ptr>
    decreases |ops|
  {
    if ops == [] then m else OnMapAll(OnMap(m, ops[0]), ops[1..])
  }

  /** Every put of the history is of a key that is absent at that moment. */
  predicate PutsAbsentKeys(m: map<Key, Ptr>, ops: seq<Op>)
    decreases |ops|
  {
    ops == [] || ((ops[0].Put? ==> ops[0].key !in m) && PutsAbsentKeys(OnMap(m, ops[0]), ops[1..]))
  }

  /** Over every history of any length that puts only absent keys, with any number of rehashes and
      holes anywhere, the table is exactly the map. */
  lemma {:induction false} HistoryIsMap(mix: Mix, t: Table, m: map<Key, Ptr>, ops: seq<Op>)
    requires Represents(mix, t, m) && PutsAbsentKeys(m, ops)
    ensures Represents(mix, PerformAll(mix, t, ops), OnMapAll(m, ops))
    decreases |ops|
  {
    if ops != [] {
      match ops[0] {
        case Put(key, data) => PutAbsentIsUpdate(mix, t, m, key, data);
        case Remove(key) => RemoveIsDeletion(mix, t, m, key);
      }
      HistoryIsMap(mix, Perform(mix, t, ops[0]), OnMap(m, ops[0]), ops[1..]);
    }
  }

  /** What one operation does to one key's stack. A put that finds the counter at the table size first
      rehashes, which leaves every key the value of the last slot carrying it. */
  function StackStep(mix: Mix, t: Table, op: Op, key: Key, stack: seq<Ptr>): seq<Ptr>
    requires Sane(t)
  {
    match op
    case Put(k, data) =>
      var full := t.size == |t.slots|;
      var room := if full then Rehash(mix, t) else t;
      var before := if full then LastWrite(t.slots, |t.slots|, key) else stack;
      if k != key then before
      else if Replaces(mix, room.slots, key) && before != [] then [data] + before[1..]
      else [data] + before
    case Remove(k) => if k != key || stack == [] then stack else stack[1..]
  }

  /** What a history does to one key's stack. */
  function StackAfter(mix: Mix, t: Table, ops: seq<Op>, key: Key, stack: seq<Ptr>): seq<Ptr>
    requires Sane(t)
    decreases |ops|
  {
    if ops == [] then stack
    else StackAfter(mix, Perform(mix, t, ops[0]), ops[1..], key, StackStep(mix, t, ops[0], key, stack))
  }

  lemma PutIsStackStep(mix: Mix, t: Table, k: Key, data: Ptr, key: Key)
    requires Sane(t)
    ensures Stack(mix, PutAny(mix, t, k, data).slots, key)
         == StackStep(mix, t, Put(k, data), key, Stack(mix, t.slots, key))
  {
    var room := if t.size == |t.slots| then Rehash(mix, t) else t;
    if t.size == |t.slots| {
      RehashStacks(mix, t, key);
    }
    PutOnOwnStack(mix, room, k, data);
    if k != key {
      PutSparesOthers(mix, room, k, data, key);
    }
  }

  /** Over every history, present keys put or not, with any number of rehashes: the table is a map from
      keys to stacks. */
  lemma {:induction false} HistoryIsStacks(mix: Mix, t: Table, ops: seq<Op>, key: Key)
    requires Sane(t)
    ensures Stack(mix, PerformAll(mix, t, ops).slots, key) == StackAfter(mix, t, ops, key, Stack(mix, t.slots, key))
    decreases |ops|
  {
    if ops != [] {
      match ops[0] {
        case Put(k, data) => PutIsStackStep(mix, t, k, data, key);
        case Remove(k) => RemoveOnStacks(mix, t, k, key);
      }
      HistoryIsStacks(mix, Perform(mix, t, ops[0]), ops[1..], key);
    }
  }

  /** As many puts of one key as there are values. */
  function Overwrites(key: Key, values: seq<Ptr>): (ops: seq<Op>)
    ensures |ops| == |values|
  {
    if values == [] then [] else [Put(key, values[0])] + Overwrites(key, values[1..])
  }

  /** Every slot is blank but for at most one, which holds this key. */
  ghost predicate OnlyKey(mix: Mix, t: Table, key: Key) {
    && Sane(t) && Packed(mix, t.slots)
    && InUse(t.slots) == |Stack(mix, t.slots, key)| <= 1
    && forall p :: 0 <= p < |t.slots| ==> t.slots[p] == BLANK || Matches(t.slots[p], key)
  }

  lemma OverwriteKeepsOnlyKey(mix: Mix, t: Table, key: Key, data: Ptr)
    requires OnlyKey(mix, t, key) && t.size < |t.slots|
    ensures OnlyKey(mix, PutRoom(mix, t, key, data), key)
  {
    PutKeepsSane(mix, t, key, data);
    PackedPut(mix, t, key, data, key);
    PutCounts(mix, t, key, data);
    PutOnOwnStack(mix, t, key, data);
    if Stack(mix, t.slots, key) != [] {
      PackedReplaces(mix, t.slots, key);
    }
  }

  lemma {:induction false} OverwritesFill(mix: Mix, t: Table, key: Key, values: seq<Ptr>)
    requires OnlyKey(mix, t, key) && t.size + |values| <= |t.slots|
    ensures var t' := PerformAll(mix, t, Overwrites(key, values));
            OnlyKey(mix, t', key) && t'.size == t.size + |values| && |t'.slots| == |t.slots|
    decreases |values|
  {
    if values != [] {
      OverwriteKeepsOnlyKey(mix, t, key, values[0]);
      assert Overwrites(key, values)[1..] == Overwrites(key, values[1..]);
      OverwritesFill(mix, Perform(mix, t, Put(key, values[0])), key, values[1..]);
    }
  }

  /** A full counter over one used slot: the rehash puts a blank slot, and key 0 is found with NULL. */
  lemma RehashPutsBlank(mix: Mix, t: Table, key: Key)
    requires OnlyKey(mix, t, key) && key != Key(0) && |t.slots| >= 2
    ensures Stack(mix, Rehash(mix, t).slots, Key(0)) == [NULL]
  {
    RehashStacks(mix, t, Key(0));
    InUseFull(t.slots);
    var p :| 0 <= p < |t.slots| && !t.slots[p].inUse;
    assert t.slots[p].key == Key(0);
    LastWriteIsASlot(t.slots, |t.slots|, Key(0));
  }

  /** A run that goes wrong, in a new table of any size from 2 on and under any hash: put one key as often
      as there are slots, whatever the values, and then a second key. Neither key is 0, yet afterwards key
      0 is found with the value NULL. */
  lemma OverwritesResurrectZero(mix: Mix, n: nat, key: Key, values: seq<Ptr>, other: Key, data: Ptr)
    requires n >= 2 && |values| == n && key != Key(0) && other != Key(0)
    ensures var t := Table(Blanks(n), 0);
            && Sane(t)
            && Stack(mix, PutAny(mix, PerformAll(mix, t, Overwrites(key, values)), other, data).slots, Key(0)) == [NULL]
  {
    var t := Table(Blanks(n), 0);
    BlankStacks(mix, n, key);
    OverwritesFill(mix, t, key, values);
    var t' := PerformAll(mix, t, Overwrites(key, values));
    RehashPutsBlank(mix, t', key);
    PutSparesOthers(mix, Rehash(mix, t'), other, data, Key(0));
  }
}
