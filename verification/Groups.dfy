/** The group lists of chat-server.c and util.c: one singly linked list of uids for each group id. */
module Groups {
  import opened Basics
  import opened Wire

  const GROUP_NUM_MAX := 255

  /** group_node_t */
  datatype Node = Node(uid: Uint16, next: Ptr)

  type Memory = map<Ptr, Node>

  /** From `p` the nodes at exactly the addresses `at` hold these uids, then NULL. */
  ghost predicate List(mem: Memory, at: set<Ptr>, p: Ptr, uids: seq<Uint16>)
    decreases |uids|
  {
    if uids == [] then p == NULL && at == {}
    else p != NULL && p in at && p in mem && mem[p].uid == uids[0] && List(mem, at - {p}, mem[p].next, uids[1..])
  }

  lemma {:induction false} ListFrame(mem: Memory, mem': Memory, at: set<Ptr>, p: Ptr, uids: seq<Uint16>)
    requires List(mem, at, p, uids)
    requires forall q :: q in at && q in mem ==> q in mem' && mem'[q] == mem[q]
    ensures List(mem', at, p, uids)
    decreases |uids|
  {
    if uids != [] {
      ListFrame(mem, mem', at - {p}, mem[p].next, uids[1..]);
    }
  }

  lemma {:induction false} ListAllocated(mem: Memory, at: set<Ptr>, p: Ptr, uids: seq<Uint16>)
    requires List(mem, at, p, uids)
    ensures (forall q :: q in at ==> q in mem) && NULL !in at
    decreases |uids|
  {
    if uids != [] {
      ListAllocated(mem, at - {p}, mem[p].next, uids[1..]);
    }
  }

  /** `current` is the node `k` steps into the list. */
  ghost predicate Reached(mem: Memory, at: set<Ptr>, p: Ptr, uids: seq<Uint16>, current: Ptr, k: nat)
    decreases |uids|
  {
    k < |uids| && p in mem
    && if k == 0 then current == p else Reached(mem, at - {p}, mem[p].next, uids[1..], current, k - 1)
  }

  /** What the walk sees at step `k` and how it goes on. */
  lemma {:induction false} ReachedNode(mem: Memory, at: set<Ptr>, p: Ptr, uids: seq<Uint16>, current: Ptr, k: nat)
    requires List(mem, at, p, uids) && Reached(mem, at, p, uids, current, k)
    ensures current != NULL && current in at && current in mem && mem[current].uid == uids[k]
    ensures k + 1 < |uids| ==> Reached(mem, at, p, uids, mem[current].next, k + 1)
    ensures mem[current].next == NULL <==> k + 1 == |uids|
    decreases |uids|
  {
    if k > 0 {
      ReachedNode(mem, at - {p}, mem[p].next, uids[1..], current, k - 1);
    }
  }

  /** A walk from `head` stands after `k` members: at the next node, or at NULL after the last. */
  ghost predicate Cursor(mem: Memory, at: set<Ptr>, head: Ptr, uids: seq<Uint16>, current: Ptr, k: nat) {
    && k <= |uids| && (current == NULL <==> k == |uids|)
    && (k < |uids| ==> Reached(mem, at, head, uids, current, k))
  }

  lemma CursorAdvances(mem: Memory, at: set<Ptr>, head: Ptr, uids: seq<Uint16>, current: Ptr, k: nat)
    requires List(mem, at, head, uids) && Cursor(mem, at, head, uids, current, k) && current != NULL
    ensures current in mem && k < |uids| && mem[current].uid == uids[k]
    ensures Cursor(mem, at, head, uids, mem[current].next, k + 1)
  {
    ReachedNode(mem, at, head, uids, current, k);
    if k + 1 < |uids| {
      ReachedNode(mem, at, head, uids, mem[current].next, k + 1);
    }
  }

  /** Linking a new node behind the last one appends its uid. */
  lemma {:induction false} AppendNode(mem: Memory, at: set<Ptr>, p: Ptr, uids: seq<Uint16>, last: Ptr, q: Ptr)
    requires List(mem, at, p, uids) && uids != [] && Reached(mem, at, p, uids, last, |uids| - 1)
    requires q !in at && q != NULL && q in mem && mem[q].next == NULL && last in mem
    ensures List(mem[last := mem[last].(next := q)], at + {q}, p, uids + [mem[q].uid])
    decreases |uids|
  {
    var mem', uid := mem[last := mem[last].(next := q)], mem[q].uid;
    assert (uids + [uid])[1..] == uids[1..] + [uid];
    ReachedNode(mem, at, p, uids, last, |uids| - 1);
    if |uids| == 1 {
      assert at + {q} - {p} == {q};
      assert uids[1..] + [uid] == [uid];
      assert List(mem', {q} - {q}, NULL, []);
    } else {
      ListAllocated(mem, at - {p}, mem[p].next, uids[1..]);
      AppendNode(mem, at - {p}, mem[p].next, uids[1..], last, q);
      ReachedNode(mem, at - {p}, mem[p].next, uids[1..], last, |uids| - 2);
      assert at + {q} - {p} == at - {p} + {q};
    }
  }

  lemma {:induction false} ReachedFrame(mem: Memory, mem': Memory, at: set<Ptr>, p: Ptr, uids: seq<Uint16>, current: Ptr, k: nat)
    requires List(mem, at, p, uids) && Reached(mem, at, p, uids, current, k)
    requires forall q :: q in mem ==> q in mem' && mem'[q] == mem[q]
    ensures Reached(mem', at, p, uids, current, k)
    decreases |uids|
  {
    if k > 0 {
      ReachedFrame(mem, mem', at - {p}, mem[p].next, uids[1..], current, k - 1);
    }
  }

  class GroupTable {
    const groups: array<Ptr>
    var mem: Memory
    ghost var at: seq<set<Ptr>>           // the nodes of each list
    ghost var members: seq<seq<Uint16>>   // the uids of each list, in order

    ghost predicate Valid()
      reads this, groups
    {
      && groups.Length == |at| == |members| == GROUP_NUM_MAX
      && (forall g :: 0 <= g < GROUP_NUM_MAX ==> List(mem, at[g], groups[g], members[g]))
      && (forall g, h :: 0 <= g < h < GROUP_NUM_MAX ==> at[g] !! at[h])
    }

    /** The static table: every list empty. */
    constructor ()
      ensures Valid() && fresh(groups) && members == seq(GROUP_NUM_MAX, _ => [])
    {
      groups := new Ptr[GROUP_NUM_MAX](_ => NULL);
      mem := map[];
      at := seq(GROUP_NUM_MAX, _ => {});
      members := seq(GROUP_NUM_MAX, _ => []);
    }

    /** groups[gid] == NULL exactly when the group has no member. */
    method IsEmpty(gid: nat) returns (empty: bool)
      requires Valid() && gid < GROUP_NUM_MAX
      ensures empty <==> members[gid] == []
    {
      empty := groups[gid] == NULL;
      assert List(mem, at[gid], groups[gid], members[gid]);
    }

    /** check_user_in_group */
    method CheckUserInGroup(uid: Uint16, gid: nat) returns (status: int)
      requires Valid() && gid < GROUP_NUM_MAX
      ensures status == if uid in members[gid] then 0 else ERR_GENERIC
    {
      var current := groups[gid];
      ghost var uids, k := members[gid], 0;
      assert List(mem, at[gid], groups[gid], uids);
      while current != NULL
        invariant Cursor(mem, at[gid], groups[gid], uids, current, k) && uid !in uids[..k]
        decreases |uids| - k
      {
        CursorAdvances(mem, at[gid], groups[gid], uids, current, k);
        if mem[current].uid == uid {
          return 0;
        }
        current := mem[current].next;
        k := k + 1;
      }
      assert uids[..k] == uids;
      status := ERR_GENERIC;
    }

    /** The walk of group_add_tail to the end of the list. */
    method LastNode(gid: nat) returns (current: Ptr)
      requires Valid() && gid < GROUP_NUM_MAX && members[gid] != []
      ensures current in mem && Reached(mem, at[gid], groups[gid], members[gid], current, |members[gid]| - 1)
    {
      current := groups[gid];
      ghost var uids, k := members[gid], 0;
      assert List(mem, at[gid], groups[gid], uids);
      ReachedNode(mem, at[gid], groups[gid], uids, current, k);
      while mem[current].next != NULL
        invariant 0 <= k < |uids| && Reached(mem, at[gid], groups[gid], uids, current, k) && current in mem
        decreases |uids| - k
      {
        ReachedNode(mem, at[gid], groups[gid], uids, current, k);
        current := mem[current].next;
        k := k + 1;
        ReachedNode(mem, at[gid], groups[gid], uids, current, k);
      }
      ReachedNode(mem, at[gid], groups[gid], uids, current, k);
    }

    /** After linking, the group's list is longer by one and every other list is as before. */
    lemma TailLinked(mem0: Memory, mem1: Memory, gid: nat, uid: Uint16, last: Ptr, q: Ptr)
      requires groups.Length == |at| == |members| == GROUP_NUM_MAX && gid < GROUP_NUM_MAX
      requires forall g :: 0 <= g < GROUP_NUM_MAX ==> List(mem0, at[g], groups[g], members[g])
      requires forall g, h :: 0 <= g < h < GROUP_NUM_MAX ==> at[g] !! at[h]
      requires members[gid] != [] && last in mem0 && Reached(mem0, at[gid], groups[gid], members[gid], last, |members[gid]| - 1)
      requires q != NULL && q !in mem0 && mem1 == mem0[q := Node(uid, NULL)]
      ensures q !in at[gid] && List(mem1[last := mem1[last].(next := q)], at[gid] + {q}, groups[gid], members[gid] + [uid])
      ensures forall g :: 0 <= g < GROUP_NUM_MAX && g != gid ==>
        q !in at[g] && List(mem1[last := mem1[last].(next := q)], at[g], groups[g], members[g])
    {
      ReachedNode(mem0, at[gid], groups[gid], members[gid], last, |members[gid]| - 1);
      ListAllocated(mem0, at[gid], groups[gid], members[gid]);
      ListFrame(mem0, mem1, at[gid], groups[gid], members[gid]);
      ReachedFrame(mem0, mem1, at[gid], groups[gid], members[gid], last, |members[gid]| - 1);
      AppendNode(mem1, at[gid], groups[gid], members[gid], last, q);
      var mem2 := mem1[last := mem1[last].(next := q)];
      forall g | 0 <= g < GROUP_NUM_MAX && g != gid ensures q !in at[g] && List(mem2, at[g], groups[g], members[g]) {
        ListAllocated(mem0, at[g], groups[g], members[g]);
        assert last !in at[g] by { assert at[g] !! at[gid]; }
        ListFrame(mem0, mem2, at[g], groups[g], members[g]);
      }
    }

    /** add_user_to_group, through group_add_tail; `unused` is the address malloc returns. */
    method AddUserToGroup(uid: Uint16, gid: nat, unused: Ptr) returns (status: int)
      requires Valid() && gid < GROUP_NUM_MAX && members[gid] != [] && unused != NULL && unused !in mem
      modifies this
      ensures Valid() && status == 0
      ensures members == old(members)[gid := old(members)[gid] + [uid]]
    {
      var current := LastNode(gid);
      mem := mem[unused := Node(uid, NULL)];
      ghost var before := mem;
      mem := mem[current := mem[current].(next := unused)];
      TailLinked(old(mem), before, gid, uid, current, unused);
      at := at[gid := at[gid] + {unused}];
      members := members[gid := members[gid] + [uid]];
      status := 0;
    }

    /** CREATE_GROUP's new list of one node. */
    method NewGroup(uid: Uint16, gid: nat, unused: Ptr)
      requires Valid() && gid < GROUP_NUM_MAX && members[gid] == [] && unused != NULL && unused !in mem
      modifies this, groups
      ensures Valid() && members == old(members)[gid := [uid]]
    {
      forall g | 0 <= g < GROUP_NUM_MAX ensures List(mem[unused := Node(uid, NULL)], at[g], groups[g], members[g]) && unused !in at[g] {
        ListFrame(mem, mem[unused := Node(uid, NULL)], at[g], groups[g], members[g]);
        ListAllocated(mem, at[g], groups[g], members[g]);
      }
      mem := mem[unused := Node(uid, NULL)];
      groups[gid] := unused;
      at := at[gid := {unused}];
      members := members[gid := [uid]];
      assert {unused} - {unused} == {} && [uid][1..] == [];
      assert List(mem, {unused} - {unused}, NULL, []);
    }
  }
}
