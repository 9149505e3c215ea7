/** The kernel's fixed-size tables: a vector of slots searched from the front,
    with ids handed out in increasing order. */
module SlotTable {
  import opened Option

  datatype Slot<+T> = Empty | Used(id: nat, item: T)

  predicate HasId<T>(slot: Slot<T>, id: nat) { slot.Used? && slot.id == id }

  predicate Distinct<T>(slots: seq<Slot<T>>) {
    forall i, j :: 0 <= i < j < |slots| && slots[i].Used? && slots[j].Used? ==> slots[i].id != slots[j].id
  }

  // The table as a map from id to item.
  function Content<T>(slots: seq<Slot<T>>): map<nat, T> {
    if slots == [] then map[]
    else
      var n := |slots| - 1;
      var rest := Content(slots[..n]);
      if slots[n].Used? then rest[slots[n].id := slots[n].item] else rest
  }

  lemma {:induction false} ContentHas<T>(slots: seq<Slot<T>>, id: nat)
    requires Distinct(slots)
    ensures id in Content(slots) <==> exists i :: 0 <= i < |slots| && HasId(slots[i], id)
    ensures forall i :: 0 <= i < |slots| && HasId(slots[i], id) ==> Content(slots)[id] == slots[i].item
  {
    if slots != [] {
      var n := |slots| - 1;
      ContentHas(slots[..n], id);
      assert forall i :: 0 <= i < n ==> slots[..n][i] == slots[i];
    }
  }

  lemma ContentAt<T>(slots: seq<Slot<T>>, i: nat)
    requires Distinct(slots) && i < |slots| && slots[i].Used?
    ensures slots[i].id in Content(slots) && Content(slots)[slots[i].id] == slots[i].item
  {
    ContentHas(slots, slots[i].id);
    assert HasId(slots[i], slots[i].id);
  }

  // Two tables with the same entries have the same content.
  lemma ContentExtensional<T>(slots: seq<Slot<T>>, m: map<nat, T>)
    requires Distinct(slots)
    requires forall i :: 0 <= i < |slots| && slots[i].Used? ==> slots[i].id in m && m[slots[i].id] == slots[i].item
    requires forall id :: id in m ==> exists i :: 0 <= i < |slots| && HasId(slots[i], id)
    ensures Content(slots) == m
  {
    forall id
      ensures id in Content(slots) <==> id in m
      ensures id in m ==> Content(slots)[id] == m[id]
    {
      ContentHas(slots, id);
      if id in m {
        var i :| 0 <= i < |slots| && HasId(slots[i], id);
      }
    }
  }

  predicate Full<T>(slots: seq<Slot<T>>) {
    forall i :: 0 <= i < |slots| ==> slots[i].Used?
  }

  // A table is full exactly when it holds as many items as slots.
  lemma {:induction false} ContentSize<T>(slots: seq<Slot<T>>)
    requires Distinct(slots)
    ensures |Content(slots)| <= |slots|
    ensures |Content(slots)| == |slots| <==> Full(slots)
  {
    if slots != [] {
      var n := |slots| - 1;
      var front := slots[..n];
      ContentSize(front);
      assert Full(slots) <==> Full(front) && slots[n].Used? by {
        assert forall i :: 0 <= i < n ==> front[i] == slots[i];
      }
      if slots[n].Used? {
        ContentHas(front, slots[n].id);
        assert Content(slots).Keys == Content(front).Keys + {slots[n].id};
      }
    }
  }

  lemma SlotReplaced<T>(slots: seq<Slot<T>>, i: nat, slot: Slot<T>)
    requires Distinct(slots) && i < |slots|
    requires slot.Used? ==> slot.id !in Content(slots) || HasId(slots[i], slot.id)
    ensures Distinct(slots[i := slot])
    ensures Content(slots[i := slot]) ==
            var gone := if slots[i].Used? then Content(slots) - {slots[i].id} else Content(slots);
            if slot.Used? then gone[slot.id := slot.item] else gone
  {
    var new_ := slots[i := slot];
    forall j, k | 0 <= j < k < |new_| && new_[j].Used? && new_[k].Used?
      ensures new_[j].id != new_[k].id
    {
      if j == i { ContentAt(slots, k); } else if k == i { ContentAt(slots, j); }
    }
    var gone := if slots[i].Used? then Content(slots) - {slots[i].id} else Content(slots);
    var m := if slot.Used? then gone[slot.id := slot.item] else gone;
    forall j | 0 <= j < |new_| && new_[j].Used?
      ensures new_[j].id in m && m[new_[j].id] == new_[j].item
    {
      if j != i { ContentAt(slots, j); }
    }
    forall id | id in m
      ensures exists j :: 0 <= j < |new_| && HasId(new_[j], id)
    {
      ContentHas(slots, id);
      if slot.Used? && id == slot.id {
        assert HasId(new_[i], id);
      } else {
        var j :| 0 <= j < |slots| && HasId(slots[j], id);
        assert HasId(new_[j], id);
      }
    }
    ContentExtensional(new_, m);
  }

  const ID_SPACE: nat := 0x1_0000_0000

  // wrapping_add(1).max(1)
  function NextId(n: nat): nat {
    if n + 1 >= ID_SPACE then 1 else n + 1
  }

  class Table<T> {
    var slots: seq<Slot<T>>
    var nextId: nat

    ghost predicate Valid()
      reads this
    {
      && Distinct(slots) && 1 <= nextId < ID_SPACE
      && forall i :: 0 <= i < |slots| && slots[i].Used? ==> 1 <= slots[i].id < ID_SPACE
    }

    ghost function Items(): map<nat, T>
      reads this
    {
      Content(slots)
    }

    constructor (cap: nat)
      ensures Valid() && Items() == map[] && nextId == 1 && |slots| == cap && fresh(this)
    {
      slots := seq(cap, _ => Empty);
      nextId := 1;
      new;
      var none: map<nat, T> := map[];
      ContentExtensional(slots, none);
    }

    // The lowest empty slot takes the item under the next id. An id is used up even if
    // there is no empty slot.
    method Alloc(item: T) returns (r: Option<nat>)
      requires Valid() && nextId !in Items()
      modifies this
      ensures Valid() && |slots| == |old(slots)| && nextId == NextId(old(nextId))
      ensures r == if |old(Items())| < |slots| then Some(old(nextId)) else None
      ensures Items() == if r.Some? then old(Items())[old(nextId) := item] else old(Items())
    {
      var id := nextId;
      nextId := NextId(nextId);
      ContentSize(slots);
      ContentHas(slots, id);
      for i := 0 to |slots|
        invariant slots == old(slots) && nextId == NextId(id)
        invariant forall k :: 0 <= k < i ==> slots[k].Used?
      {
        if slots[i].Empty? {
          SlotReplaced(slots, i, Used(id, item));
          slots := slots[i := Used(id, item)];
          return Some(id);
        }
      }
      return None;
    }

    method Get(id: nat) returns (r: Option<T>)
      requires Valid()
      ensures r == if id in Items() then Some(Items()[id]) else None
    {
      ContentHas(slots, id);
      for i := 0 to |slots|
        invariant forall k :: 0 <= k < i ==> !HasId(slots[k], id)
      {
        if slots[i].Used? && slots[i].id == id {
          assert HasId(slots[i], id);
          return Some(slots[i].item);
        }
      }
      return None;
    }

    // Overwrites the item of an id, as a mutable borrow does.
    method Put(id: nat, item: T)
      requires Valid()
      modifies this`slots
      ensures Valid() && |slots| == |old(slots)|
      ensures Items() == if id in old(Items()) then old(Items())[id := item] else old(Items())
    {
      ContentHas(slots, id);
      for i := 0 to |slots|
        invariant slots == old(slots)
        invariant forall k :: 0 <= k < i ==> !HasId(slots[k], id)
      {
        if slots[i].Used? && slots[i].id == id {
          assert HasId(slots[i], id);
          SlotReplaced(slots, i, Used(id, item));
          slots := slots[i := Used(id, item)];
          return;
        }
      }
    }

    method Take(id: nat) returns (r: Option<T>)
      requires Valid()
      modifies this`slots
      ensures Valid() && |slots| == |old(slots)|
      ensures r == if id in old(Items()) then Some(old(Items())[id]) else None
      ensures Items() == old(Items()) - {id}
    {
      ContentHas(slots, id);
      for i := 0 to |slots|
        invariant slots == old(slots)
        invariant forall k :: 0 <= k < i ==> !HasId(slots[k], id)
      {
        if slots[i].Used? && slots[i].id == id {
          assert HasId(slots[i], id);
          SlotReplaced(slots, i, Empty);
          r := Some(slots[i].item);
          slots := slots[i := Empty];
          return;
        }
      }
      return None;
    }
  }
}
