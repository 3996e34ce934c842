/** hashmap.c: the slot array, probed, overwritten and doubled in place. Each method is proved against
    the functions of `HashTable`. The mutex is taken as held for the whole of each outermost call. */
module HashMaps {
  import opened Basics
  import opened HashTable

  const INITIAL_SIZE: nat := 1024

  /** What hashmap_new makes. */
  const NEW_TABLE := Table(Blanks(INITIAL_SIZE), 0)

  const MAP_MISSING := -3
  const MAP_FULL := -2
  const MAP_OK := 0

  /** The values of the used slots from index `i` on, in index order. */
  function UsedFrom(slots: seq<Slot>, i: nat): seq<Ptr>
    requires i <= |slots|
    decreases |slots| - i
  {
    if i == |slots| then [] else (if slots[i].inUse then [slots[i].data] else []) + UsedFrom(slots, i + 1)
  }

  /** The values a callback is shown when the traversal ends at the first status that is not MAP_OK. */
  function Visited(values: seq<Ptr>, f: Ptr -> int): seq<Ptr> {
    if values == [] then []
    else [values[0]] + if f(values[0]) == MAP_OK then Visited(values[1..], f) else []
  }

  function Verdict(values: seq<Ptr>, f: Ptr -> int): int {
    if values == [] then MAP_OK
    else if f(values[0]) == MAP_OK then Verdict(values[1..], f) else f(values[0])
  }

  /** A callback that always returns MAP_OK is shown everything. */
  lemma {:induction false} AllVisited(values: seq<Ptr>, f: Ptr -> int)
    requires forall v :: f(v) == MAP_OK
    ensures Visited(values, f) == values && Verdict(values, f) == MAP_OK
  {
    if values != [] {
      AllVisited(values[1..], f);
    }
  }

  lemma VisitStep(slots: seq<Slot>, i: nat, f: Ptr -> int)
    requires i < |slots|
    ensures var now, next := UsedFrom(slots, i), UsedFrom(slots, i + 1);
            if !slots[i].inUse then now == next
            else if f(slots[i].data) == MAP_OK
            then Visited(now, f) == [slots[i].data] + Visited(next, f) && Verdict(now, f) == Verdict(next, f)
            else Visited(now, f) == [slots[i].data] && Verdict(now, f) == f(slots[i].data)
  {
    if slots[i].inUse {
      assert UsedFrom(slots, i)[1..] == UsedFrom(slots, i + 1);
    }
  }

  /** The lowest used slot; the number of slots if there is none. */
  function FirstUsed(slots: seq<Slot>, i: nat): (p: nat)
    requires i <= |slots|
    ensures i <= p <= |slots| && (p < |slots| ==> slots[p].inUse)
    ensures forall q :: i <= q < p ==> !slots[q].inUse
    decreases |slots| - i
  {
    if i == |slots| || slots[i].inUse then i else FirstUsed(slots, i + 1)
  }

  lemma {:induction false} UsedAfterHoles(slots: seq<Slot>, i: nat, p: nat)
    requires i <= p <= |slots| && forall q :: i <= q < p ==> !slots[q].inUse
    ensures UsedFrom(slots, i) == UsedFrom(slots, p)
    decreases p - i
  {
    if i < p {
      UsedAfterHoles(slots, i + 1, p);
    }
  }

  /** Iteration meets as many values as slots are in use. */
  lemma {:induction false} UsedCounts(slots: seq<Slot>, i: nat)
    requires i <= |slots|
    ensures |UsedFrom(slots, i)| + InUse(slots[..i]) == InUse(slots)
    decreases |slots| - i
  {
    if i == |slots| {
      assert slots[..i] == slots;
    } else {
      UsedCounts(slots, i + 1);
      assert slots[..i + 1][..i] == slots[..i];
    }
  }

  /** It meets exactly the values of used slots. */
  lemma {:induction false} UsedAreMet(slots: seq<Slot>, i: nat, v: Ptr)
    requires i <= |slots|
    ensures v in UsedFrom(slots, i) <==> exists p :: i <= p < |slots| && slots[p].inUse && slots[p].data == v
    decreases |slots| - i
  {
    if i < |slots| {
      UsedAreMet(slots, i + 1, v);
      var now, next := UsedFrom(slots, i), UsedFrom(slots, i + 1);
      assert now == if slots[i].inUse then [slots[i].data] + next else next;
      if slots[i].inUse && slots[i].data == v {
        assert now[0] == v;
      } else {
        assert v in now <==> v in next;
      }
    }
  }

  ghost predicate Distinct(values: seq<Ptr>) {
    forall a, b :: 0 <= a < b < |values| ==> values[a] != values[b]
  }

  lemma DistinctCons(value: Ptr, values: seq<Ptr>)
    requires Distinct(values) && value !in values
    ensures Distinct([value] + values)
  {
  }

  /** When used slots hold different values, iteration meets none twice. */
  lemma {:induction false} UsedAreDistinct(slots: seq<Slot>, i: nat)
    requires i <= |slots|
    requires forall p, q :: i <= p < q < |slots| && slots[p].inUse && slots[q].inUse ==> slots[p].data != slots[q].data
    ensures Distinct(UsedFrom(slots, i))
    decreases |slots| - i
  {
    if i < |slots| {
      UsedAreDistinct(slots, i + 1);
      var now, next := UsedFrom(slots, i), UsedFrom(slots, i + 1);
      if slots[i].inUse {
        assert now == [slots[i].data] + next;
        UsedAreMet(slots, i + 1, slots[i].data);
        if p :| i + 1 <= p < |slots| && slots[p].inUse && slots[p].data == slots[i].data {
          assert false;
        }
        DistinctCons(slots[i].data, next);
      } else {
        assert now == next;
      }
    }
  }

  /** hashmap_get_one with removal only clears the flag: key and data stay in the slot. */
  function TakeSlot(t: Table, p: nat): Table
    requires p < |t.slots|
  {
    Table(t.slots[p := t.slots[p].(inUse := false)], t.size - 1)
  }

  lemma OnlySlotTaken(slots: seq<Slot>, home: nat, key: Key, p: nat)
    requires home < |slots| && p < |slots| && Matches(slots[p], key) && |StackFrom(slots, home, key, 0)| <= 1
    ensures StackFrom(slots[p := slots[p].(inUse := false)], home, key, 0) == []
  {
    var n := |slots|;
    var slots' := slots[p := slots[p].(inUse := false)];
    forall j | 0 <= j < n ensures !Matches(slots'[Pos(home, j, n)], key) {
      var q := Pos(home, j, n);
      if q != p && Matches(slots[q], key) {
        assert Offset(home, q, n) == j && Pos(home, Offset(home, p, n), n) == p;
        if j < Offset(home, p, n) {
          TwoSlotsTwoValues(slots, home, key, 0, q, p);
        } else {
          TwoSlotsTwoValues(slots, home, key, 0, p, q);
        }
      }
    }
    SkipMisses(slots', home, key, 0, n);
  }

  lemma TakeSlotAt(mix: Mix, t: Table, m: map<Key, Ptr>, p: nat, other: Key)
    requires p < |t.slots| && t.slots[p].inUse && |Stack(mix, t.slots, t.slots[p].key)| <= 1
    requires Stack(mix, t.slots, other) == if other in m then [m[other]] else []
    ensures Stack(mix, TakeSlot(t, p).slots, other) == if other in m && other != t.slots[p].key then [m[other]] else []
  {
    var n, key := |t.slots|, t.slots[p].key;
    if other != key {
      StackFrame(t.slots, p, t.slots[p].(inUse := false), Home(mix, other, n), other, 0);
    } else {
      OnlySlotTaken(t.slots, Home(mix, key, n), key, p);
    }
  }

  lemma TakeSlotCounts(t: Table, p: nat)
    requires Sane(t) && t.size == InUse(t.slots) && p < |t.slots| && t.slots[p].inUse
    ensures Sane(TakeSlot(t, p)) && TakeSlot(t, p).size == InUse(TakeSlot(t, p).slots)
  {
    InUseAfterWrite(t.slots, p, t.slots[p].(inUse := false));
  }

  lemma UsedKeyIsIn(mix: Mix, t: Table, m: map<Key, Ptr>, p: nat)
    requires Represents(mix, t, m) && p < |t.slots| && t.slots[p].inUse
    ensures t.slots[p].key in m && m[t.slots[p].key] == t.slots[p].data
  {
    var key := t.slots[p].key;
    SlotIsOnStack(t.slots, Home(mix, key, |t.slots|), key, 0, p);
    assert Stack(mix, t.slots, key) == if key in m then [m[key]] else [];
  }

  /** Taking any used slot out of a table that stands for a map deletes that slot's key. */
  lemma TakeSlotIsDeletion(mix: Mix, t: Table, m: map<Key, Ptr>, p: nat)
    requires Represents(mix, t, m) && p < |t.slots| && t.slots[p].inUse
    ensures var key := t.slots[p].key;
            key in m && m[key] == t.slots[p].data && Represents(mix, TakeSlot(t, p), m - {key})
  {
    var key := t.slots[p].key;
    UsedKeyIsIn(mix, t, m, p);
    TakeSlotCounts(t, p);
    assert |Stack(mix, t.slots, key)| <= 1;
    forall other
      ensures Stack(mix, TakeSlot(t, p).slots, other) == if other in m - {key} then [(m - {key})[other]] else []
    {
      TakeSlotAt(mix, t, m, p, other);
    }
  }

  /** In a new map, 1024 puts of one key and a put of another, neither of them 0, make key 0 appear. */
  lemma NewMapResurrectsZero(mix: Mix, key: Key, values: seq<Ptr>, other: Key, data: Ptr)
    requires |values| == INITIAL_SIZE && key != Key(0) && other != Key(0)
    ensures Sane(NEW_TABLE)
    ensures var t := PutAny(mix, PerformAll(mix, NEW_TABLE, Overwrites(key, values)), other, data);
            Found(mix, t.slots, Key(0)) == Some(NULL)
  {
    OverwritesResurrectZero(mix, INITIAL_SIZE, key, values, other, data);
  }

  lemma Around(x: nat, n: nat)
    requires 0 < x <= n
    ensures x % n == if x == n then 0 else x
  {
  }

  /** Stepping one slot on, around the end of the array, is the next probe. */
  lemma NextPos(home: nat, i: nat, n: nat)
    requires home < n && i < n
    ensures i + 1 < n ==> (Pos(home, i, n) + 1) % n == Pos(home, i + 1, n)
    ensures 0 <= (Pos(home, i, n) + 1) % n < n
  {
    Around(Pos(home, i, n) + 1, n);
  }

  /** A counter that is not positive means no used slot. */
  lemma {:induction false} NoneUsed(slots: seq<Slot>, i: nat)
    requires InUse(slots) == 0 && i <= |slots|
    ensures FirstUsed(slots, i) == |slots| && UsedFrom(slots, i) == []
    decreases |slots| - i
  {
    if i < |slots| {
      InUseAfterWrite(slots, i, BLANK);
      NoneUsed(slots, i + 1);
    }
  }

  class HashMap {
    const mix: Mix
    var tableSize: nat
    var size: int
    var data: array<Slot>

    ghost predicate Valid()
      reads this, data
    {
      data.Length == tableSize && Sane(Abs())
    }

    ghost function Abs(): Table
      reads this, data
    {
      Table(data[..], size)
    }

    /** hashmap_new */
    constructor (mix: Mix)
      ensures Valid() && this.mix == mix && fresh(data) && Abs() == NEW_TABLE
      ensures Represents(mix, Abs(), map[])
    {
      this.mix := mix;
      tableSize := INITIAL_SIZE;
      size := 0;
      data := new Slot[INITIAL_SIZE](_ => BLANK);
      new;
      assert data[..] == Blanks(INITIAL_SIZE);
      forall key ensures Stack(mix, data[..], key) == [] {
        BlankStacks(mix, INITIAL_SIZE, key);
      }
    }

    /** Where put stores the key. */
    function StepOf(slots: seq<Slot>, key: Key): int
      requires slots != []
    {
      var r := PutStep(slots, Home(mix, key, |slots|), key, 0);
      if r < |slots| then Pos(Home(mix, key, |slots|), r, |slots|) else MAP_FULL
    }

    /** hashmap_hash: where put stores the key. */
    method Hash(key: Key) returns (index: int)
      requires Valid()
      ensures size == tableSize ==> index == MAP_FULL
      ensures size < tableSize ==>
        0 <= index < tableSize && index == StepOf(data[..], key)
    {
      if size == tableSize {
        return MAP_FULL;
      }
      ghost var home := Home(mix, key, tableSize);
      RoomIsFound(data[..], home, key);
      var curr := mix(key) % tableSize;
      var i := 0;
      while i < tableSize
        invariant 0 <= i <= tableSize && (i < tableSize ==> curr == Pos(home, i, tableSize))
        invariant PutStep(data[..], home, key, 0) == PutStep(data[..], home, key, i)
      {
        if !data[curr].inUse {
          return curr;
        }
        if data[curr].key == key && data[curr].inUse {
          return curr;
        }
        NextPos(home, i, tableSize);
        curr := (curr + 1) % tableSize;
        i := i + 1;
      }
      return MAP_FULL;
    }

    /** The slot array of twice the size that hashmap_rehash starts to fill. */
    method Double()
      requires Valid()
      modifies this`data, this`tableSize, this`size
      ensures Valid() && fresh(data) && tableSize == 2 * old(tableSize)
      ensures Abs() == Copied(mix, old(data[..]), 0)
    {
      var temp := new Slot[2 * tableSize](_ => BLANK);
      data := temp;
      tableSize := 2 * tableSize;
      size := 0;
      assert data[..] == Blanks(tableSize);
    }

    /** hashmap_rehash: no nested put finds the doubled table full, so the recursion with put ends. */
    method RehashAll()
      requires Valid() && size == tableSize
      modifies this`data, this`tableSize, this`size
      ensures Valid() && fresh(data) && Abs() == Rehash(mix, old(Abs()))
      decreases 1, 0
    {
      var curr := data;
      var oldSize := tableSize;
      ghost var slots := data[..];
      Double();
      var i := 0;
      while i < oldSize
        invariant 0 <= i <= oldSize == |slots| && Valid() && fresh(data)
        invariant curr[..] == slots && tableSize == 2 * oldSize
        invariant Abs() == Copied(mix, slots, i)
      {
        assert curr[i] == slots[i];
        PutNested(curr[i].key, curr[i].data, slots, i);
        i := i + 1;
      }
    }

    /** The put that rehash makes for old slot `i`. */
    method PutNested(key: Key, value: Ptr, ghost slots: seq<Slot>, ghost i: nat)
      requires Valid() && i < |slots| && Abs() == Copied(mix, slots, i)
      requires key == slots[i].key && value == slots[i].data
      modifies this`data, this`tableSize, this`size, data
      ensures Valid() && Abs() == Copied(mix, slots, i + 1)
      ensures data == old(data) && tableSize == old(tableSize)
      decreases 0, 2
    {
      var status := PutValue(key, value);
    }

    /** hashmap_put: rehashes at most once, then writes. */
    method PutValue(key: Key, value: Ptr) returns (status: int)
      requires Valid()
      modifies this`data, this`tableSize, this`size, data
      ensures Valid() && status == MAP_OK && Abs() == PutAny(mix, old(Abs()), key, value)
      ensures data == old(data) || fresh(data)
      ensures old(size) < old(tableSize) ==> data == old(data) && tableSize == old(tableSize)
      decreases if size == tableSize then 1 else 0, 1
    {
      ghost var t := Abs();
      ghost var room := if t.size == |t.slots| then Rehash(mix, t) else t;
      PutKeepsSane(mix, room, key, value);
      RoomIsFound(room.slots, Home(mix, key, |room.slots|), key);
      var index := Hash(key);
      while index == MAP_FULL
        invariant Valid() && (data == old(data) || fresh(data))
        invariant if index == MAP_FULL then Abs() == t && size == tableSize && data == old(data)
                  else Abs() == room && 0 <= index < tableSize && index == StepOf(room.slots, key)
        invariant old(size) < old(tableSize) ==> data == old(data) && tableSize == old(tableSize)
        decreases if index == MAP_FULL then 1 else 0
      {
        RehashAll();
        index := Hash(key);
      }
      data[index] := Slot(true, key, value);
      size := size + 1;
      status := MAP_OK;
    }

    /** hashmap_get: the value a key was last put with and not removed since, wherever holes are. */
    method Get(key: Key) returns (status: int, value: Ptr)
      requires Valid()
      ensures var stack := Stack(mix, data[..], key);
              if stack == [] then status == MAP_MISSING && value == NULL
              else status == MAP_OK && value == stack[0]
    {
      ghost var home := Home(mix, key, tableSize);
      KeyStepMeetsTop(mix, data[..], key);
      var curr := mix(key) % tableSize;
      var i := 0;
      while i < tableSize
        invariant 0 <= i <= tableSize && (i < tableSize ==> curr == Pos(home, i, tableSize))
        invariant KeyStep(data[..], home, key, 0) == KeyStep(data[..], home, key, i)
      {
        if data[curr].key == key && data[curr].inUse {
          return MAP_OK, data[curr].data;
        }
        NextPos(home, i, tableSize);
        curr := (curr + 1) % tableSize;
        i := i + 1;
      }
      return MAP_MISSING, NULL;
    }

    /** hashmap_remove */
    method Remove(key: Key) returns (status: int)
      requires Valid()
      modifies this`size, data
      ensures Valid() && Abs() == RemoveKey(mix, old(Abs()), key)
      ensures status == if Stack(mix, old(data[..]), key) == [] then MAP_MISSING else MAP_OK
    {
      ghost var home := Home(mix, key, tableSize);
      KeyStepMeetsTop(mix, data[..], key);
      RemoveKeepsSane(mix, Abs(), key);
      var curr := mix(key) % tableSize;
      var i := 0;
      while i < tableSize
        invariant 0 <= i <= tableSize && (i < tableSize ==> curr == Pos(home, i, tableSize))
        invariant KeyStep(data[..], home, key, 0) == KeyStep(data[..], home, key, i)
        invariant Abs() == old(Abs())
      {
        if data[curr].key == key && data[curr].inUse {
          data[curr] := data[curr].(inUse := false);
          data[curr] := data[curr].(data := NULL);
          data[curr] := data[curr].(key := Key(0));
          size := size - 1;
          assert data[..] == old(data[..])[curr := BLANK];
          return MAP_OK;
        }
        NextPos(home, i, tableSize);
        curr := (curr + 1) % tableSize;
        i := i + 1;
      }
      return MAP_MISSING;
    }

    /** hashmap_get_one */
    method GetOne(remove: bool) returns (status: int, value: Ptr)
      requires Valid()
      modifies this`size, data
      ensures Valid()
      ensures var p := FirstUsed(old(data[..]), 0);
              && (p == tableSize ==> status == MAP_MISSING && Abs() == old(Abs()))
              && (p < tableSize ==> status == MAP_OK && value == old(data[..])[p].data)
              && (p < tableSize ==> Abs() == if remove then TakeSlot(old(Abs()), p) else old(Abs()))
    {
      value := NULL;
      if size <= 0 {
        NoneUsed(data[..], 0);
        return MAP_MISSING, value;
      }
      var i := 0;
      while i < tableSize
        invariant 0 <= i <= tableSize && Abs() == old(Abs())
        invariant FirstUsed(data[..], 0) == FirstUsed(data[..], i)
      {
        if data[i].inUse {
          value := data[i].data;
          if remove {
            InUseAfterWrite(data[..], i, data[i].(inUse := false));
            data[i] := data[i].(inUse := false);
            size := size - 1;
            assert data[..] == old(data[..])[i := old(data[..])[i].(inUse := false)];
          }
          return MAP_OK, value;
        }
        i := i + 1;
      }
      return MAP_MISSING, value;
    }

    lemma OneMoreShown(shown: seq<Ptr>, value: Ptr, rest: seq<Ptr>)
      ensures shown + ([value] + rest) == shown + [value] + rest
    {
    }

    /** hashmap_iterate; `shown` lists the values the callback was called with, in order. */
    method Iterate(f: Ptr -> int) returns (status: int, shown: seq<Ptr>)
      requires Valid()
      ensures shown == Visited(UsedFrom(data[..], 0), f)
      ensures status == if size <= 0 then MAP_MISSING else Verdict(UsedFrom(data[..], 0), f)
    {
      shown := [];
      if size <= 0 {
        NoneUsed(data[..], 0);
        return MAP_MISSING, shown;
      }
      ghost var slots := data[..];
      ghost var all, verdict := Visited(UsedFrom(slots, 0), f), Verdict(UsedFrom(slots, 0), f);
      var i := 0;
      while i < tableSize
        invariant 0 <= i <= tableSize
        invariant all == shown + Visited(UsedFrom(slots, i), f)
        invariant verdict == Verdict(UsedFrom(slots, i), f)
      {
        VisitStep(slots, i, f);
        if data[i].inUse {
          OneMoreShown(shown, data[i].data, Visited(UsedFrom(slots, i + 1), f));
          shown := shown + [data[i].data];
          status := f(data[i].data);
          if status != MAP_OK {
            return;
          }
        }
        i := i + 1;
      }
      status := MAP_OK;
    }

    /** hashmap_length */
    method Length() returns (length: int)
      requires Valid()
      ensures length == Abs().size && InUse(Abs().slots) <= length
    {
      length := size;
    }
  }
}
