/** A group of members with distinct keys and a capacity. */
module Groups {
  import opened Bytes
  import opened Collections

  datatype GroupResult = Ok | Full | AlreadyInGroup | NotInGroup | InvalidCapacity

  /** The keys of the members in order, and the capacity. */
  datatype Roster = Roster(capacity: nat, ids: seq<nat>)

  function Add(r: Roster, id: nat): (GroupResult, Roster) {
    if id in r.ids then (AlreadyInGroup, r)
    else if |r.ids| >= r.capacity then (Full, r)
    else (Ok, r.(ids := r.ids + [id]))
  }

  function Remove(r: Roster, id: nat): (GroupResult, Roster) {
    if id !in r.ids then (NotInGroup, r) else (Ok, r.(ids := Without(r.ids, id)))
  }

  function Resize(r: Roster, capacity: nat): (GroupResult, Roster) {
    if capacity < |r.ids| then (InvalidCapacity, r) else (Ok, r.(capacity := capacity))
  }

  /** The list without the first occurrence of `id`. */
  function Without(ids: seq<nat>, id: nat): seq<nat> {
    if ids == [] then []
    else if ids[0] == id then ids[1..]
    else [ids[0]] + Without(ids[1..], id)
  }

  ghost predicate Inv(r: Roster) {
    Distinct(r.ids) && |r.ids| <= r.capacity
  }

  lemma {:induction false} WithoutAt(ids: seq<nat>, id: nat, i: nat)
    requires i < |ids| && ids[i] == id && id !in ids[..i]
    ensures Without(ids, id) == ids[..i] + ids[i + 1..]
    decreases i
  {
    if i == 0 {
    } else {
      assert ids[0] in ids[..i];
      assert ids[1..][..i - 1] == ids[..i][1..];
      WithoutAt(ids[1..], id, i - 1);
    }
  }

  lemma {:induction false} WithoutAbsent(ids: seq<nat>, id: nat)
    requires id !in ids
    ensures Without(ids, id) == ids
  {
    if ids != [] {
      WithoutAbsent(ids[1..], id);
    }
  }

  /** Removing a member of a duplicate-free list removes it altogether and keeps the rest in order. */
  lemma WithoutDistinct(ids: seq<nat>, id: nat)
    requires Distinct(ids) && id in ids
    ensures Distinct(Without(ids, id)) && |Without(ids, id)| == |ids| - 1
    ensures forall x :: x in Without(ids, id) <==> x in ids && x != id
  {
    var i :| 0 <= i < |ids| && ids[i] == id;
    DropAt(ids, i);
    assert id !in ids[..i];
    WithoutAt(ids, id, i);
    hide Distinct;
  }

  /** Every operation keeps the members duplicate-free and within the capacity, and exactly the results that say so
      change the membership. */
  lemma OperationsInv(r: Roster, id: nat, capacity: nat)
    requires Inv(r)
    ensures Inv(Add(r, id).1) && (Add(r, id).0 != Full <==> id in Add(r, id).1.ids)
    ensures Inv(Remove(r, id).1) && id !in Remove(r, id).1.ids
    ensures Inv(Resize(r, capacity).1)
    ensures Add(r, id).0 == Ok ==> Remove(Add(r, id).1, id).1 == r
  {
    if id in r.ids {
      WithoutDistinct(r.ids, id);
    } else {
      WithoutAt(r.ids + [id], id, |r.ids|);
    }
  }

  /** When each operation is refused and with which result, and what it changes: a new member goes to the end, a
      removed one leaves the others in order, and whatever is refused changes nothing. */
  lemma OperationsChange(r: Roster, id: nat, capacity: nat)
    requires Inv(r)
    ensures Add(r, id)
            == if id in r.ids then (AlreadyInGroup, r)
               else if |r.ids| < r.capacity then (Ok, Roster(r.capacity, r.ids + [id]))
               else (Full, r)
    ensures var (result, n) := Remove(r, id);
            if id !in r.ids then result == NotInGroup && n == r
            else
              && result == Ok && n.capacity == r.capacity && id !in n.ids
              && exists i :: 0 <= i < |r.ids| && r.ids[i] == id && n.ids == r.ids[..i] + r.ids[i + 1..]
    ensures Resize(r, capacity)
            == if |r.ids| <= capacity then (Ok, Roster(capacity, r.ids)) else (InvalidCapacity, r)
  {
    if id in r.ids {
      var i :| 0 <= i < |r.ids| && r.ids[i] == id;
      DropAt(r.ids, i);
      WithoutAt(r.ids, id, i);
      WithoutDistinct(r.ids, id);
      hide Without, Distinct;
    }
  }

  // ---------- The object ----------

  function KeysOf<M>(members: seq<M>, key: M -> nat): (ids: seq<nat>)
    ensures |ids| == |members| && forall i :: 0 <= i < |ids| ==> ids[i] == key(members[i])
  {
    if members == [] then [] else [key(members[0])] + KeysOf(members[1..], key)
  }

  lemma KeysWithout<M>(members: seq<M>, key: M -> nat, i: nat)
    requires i < |members|
    ensures var ids := KeysOf(members, key);
            KeysOf(members[..i] + members[i + 1..], key) == ids[..i] + ids[i + 1..]
  {
    hide KeysOf;
    SplitAt(members, i);
    KeysAppend(members[..i], members[i + 1..], key);
    KeysSlice(members, key, 0, i);
    KeysSlice(members, key, i + 1, |members|);
  }

  lemma {:induction false} KeysAppend<M>(a: seq<M>, b: seq<M>, key: M -> nat)
    ensures KeysOf(a + b, key) == KeysOf(a, key) + KeysOf(b, key)
  {
    if a == [] {
      NothingMore(b);
    } else {
      assert (a + b)[1..] == a[1..] + b;
      KeysAppend(a[1..], b, key);
    }
  }

  lemma KeysSlice<M>(members: seq<M>, key: M -> nat, i: nat, j: nat)
    requires i <= j <= |members|
    ensures KeysOf(members[i..j], key) == KeysOf(members, key)[i..j]
  {
    hide KeysOf;
  }

  class Group<M> {
    const key: M -> nat
    var capacity: nat
    var members: seq<M>

    ghost function Value(): Roster
      reads this
    {
      Roster(capacity, KeysOf(members, key))
    }

    constructor (capacity: nat, key: M -> nat, members: seq<M>)
      ensures Value() == Roster(capacity, KeysOf(members, key)) && this.key == key && this.members == members
    {
      this.capacity, this.key, this.members := capacity, key, members;
    }

    /** The place of the first member with the key, or the number of members if there is none. */
    method FindMember(memberKey: nat) returns (i: nat)
      ensures i <= |members|
      ensures i < |members| ==> key(members[i]) == memberKey
      ensures forall k :: 0 <= k < i ==> key(members[k]) != memberKey
    {
      i := 0;
      while i < |members| && key(members[i]) != memberKey
        invariant i <= |members|
        invariant forall k :: 0 <= k < i ==> key(members[k]) != memberKey
      {
        i := i + 1;
      }
    }

    method SetCapacity(newCapacity: nat) returns (result: GroupResult)
      modifies this`capacity
      ensures (result, Value()) == Resize(old(Value()), newCapacity)
    {
      if newCapacity < |members| {
        return InvalidCapacity;
      }
      capacity := newCapacity;
      return Ok;
    }

    method AddMember(member: M) returns (result: GroupResult)
      modifies this`members
      ensures (result, Value()) == Add(old(Value()), key(member))
      ensures members == old(members) + if result == Ok then [member] else []
    {
      var i := FindMember(key(member));
      if i < |members| {
        assert KeysOf(members, key)[i] == key(member);
        return AlreadyInGroup;
      }
      if |members| >= capacity {
        return Full;
      }
      ghost var ids := KeysOf(members, key);
      members := members + [member];
      assert KeysOf(members, key) == ids + [key(member)];
      return Ok;
    }

    method RemoveMember(memberKey: nat) returns (result: GroupResult)
      modifies this`members
      ensures (result, Value()) == Remove(old(Value()), memberKey)
    {
      var i := FindMember(memberKey);
      if i == |members| {
        return NotInGroup;
      }
      ghost var ids := KeysOf(members, key);
      assert ids[i] == memberKey;
      WithoutAt(ids, memberKey, i);
      KeysWithout(members, key, i);
      hide KeysOf;
      members := members[..i] + members[i + 1..];
      return Ok;
    }

    method ClearMembers()
      modifies this`members
      ensures Value() == old(Value()).(ids := [])
    {
      members := [];
    }
  }
}
