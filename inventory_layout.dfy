/** The validated, read-only inventory layout: its constructor checks that the
    slot groups partition the container while filling the slot-to-group
    table, and its queries look groups up by slot, by character and by name. */
module InventoryLayouts {
  import opened SlotGroups
  import opened LayoutValidation

  /** The result of building a layout. Every field is fixed at construction;
      `groups` is the iteration order of the group set and `groupsBySlot`
      holds, at each slot, the group that owns it (None where Java has null). */
  class Layout {
    const size: nat
    const title: Option<string>
    const groups: seq<SlotGroup>
    const groupsBySlot: array<Option<SlotGroup>>

    /** The groups partition [0, size), and the table names, at every slot a
        group declares, that group. */
    ghost predicate Valid()
      reads groupsBySlot
    {
      groupsBySlot.Length == size &&
      IsPartition(groups, size) &&
      forall i, j :: 0 <= i < |groups| && 0 <= j < |groups[i].slots| ==>
        0 <= groups[i].slots[j] < size && groupsBySlot[groups[i].slots[j]] == Some(groups[i])
    }

    /** Freezes a table that the validation loop has filled. */
    constructor (size: nat, title: Option<string>, groups: seq<SlotGroup>,
                 table: array<Option<SlotGroup>>)
      requires table.Length == size && IsPartition(groups, size)
      requires forall i, j :: 0 <= i < |groups| && 0 <= j < |groups[i].slots| ==>
                 0 <= groups[i].slots[j] < size && table[groups[i].slots[j]] == Some(groups[i])
      ensures Valid()
      ensures this.size == size && this.title == title && this.groups == groups
      ensures groupsBySlot == table
    {
      this.size := size;
      this.title := title;
      this.groups := groups;
      this.groupsBySlot := table;
    }

    /** The group set, as a value the caller cannot use to change the layout. */
    function GetSlotGroups(): (r: set<SlotGroup>)
    {
      set g | g in groups
    }

    /** The group set a valid layout hands out partitions its slots: every
        group stays inside [0, size), every slot belongs to a group, and two
        different groups share no slot. */
    lemma SlotGroupsPartition()
      requires Valid()
      ensures forall g, s :: g in GetSlotGroups() && s in g.slots ==> 0 <= s < size
      ensures forall s :: s in SlotRange(size) ==> exists g :: g in GetSlotGroups() && s in g.slots
      ensures forall g, h, s :: g in GetSlotGroups() && h in GetSlotGroups() && g != h && s in g.slots ==>
                s !in h.slots
    {
      PartitionInBounds(groups, size);
      PartitionCovers(groups, size);
      PartitionDisjoint(groups, size);
      forall s | s in SlotRange(size) ensures exists g :: g in GetSlotGroups() && s in g.slots {
        var i :| 0 <= i < |groups| && s in groups[i].slots;
        assert groups[i] in GetSlotGroups();
      }
      forall g, h, s | g in GetSlotGroups() && h in GetSlotGroups() && g != h && s in g.slots
        ensures s !in h.slots
      {
        var i :| 0 <= i < |groups| && groups[i] == g;
        var j :| 0 <= j < |groups| && groups[j] == h;
      }
    }

    /** No table entry is empty, and the entry at a slot is the group of the
        layout that declares that slot, whichever group that is. */
    lemma TableComplete()
      requires Valid()
      ensures forall s :: 0 <= s < size ==>
                groupsBySlot[s].Some? && groupsBySlot[s].value in groups &&
                s in groupsBySlot[s].value.slots
      ensures forall i, s :: 0 <= i < |groups| && s in groups[i].slots ==>
                0 <= s < size && groupsBySlot[s] == Some(groups[i])
    {
      forall i, s | 0 <= i < |groups| && s in groups[i].slots
        ensures 0 <= s < size && groupsBySlot[s] == Some(groups[i])
      {
        var j :| 0 <= j < |groups[i].slots| && groups[i].slots[j] == s;
      }
      PartitionCovers(groups, size);
      forall s | 0 <= s < size
        ensures groupsBySlot[s].Some? && groupsBySlot[s].value in groups
        ensures s in groupsBySlot[s].value.slots
      {
        assert s in SlotRange(size);
        var i :| 0 <= i < |groups| && s in groups[i].slots;
        assert groupsBySlot[s] == Some(groups[i]);
      }
    }

    /** The group that owns a slot, read from the table in constant time.
        Fails for a negative slot and for a slot at or past the size. */
    function GetGroupBySlot(slot: int): (r: Result<SlotGroup>)
      reads groupsBySlot
      requires Valid()
      ensures slot < 0 ==> r == Err(NegativeSlot(slot))
      ensures 0 <= slot && size <= slot ==> r == Err(SlotBeyondSize(slot, size))
      ensures 0 <= slot < size ==> r.Ok? && r.value in groups && slot in r.value.slots
      ensures r.Ok? ==> forall i :: 0 <= i < |groups| && slot in groups[i].slots ==> groups[i] == r.value
    {
      if slot < 0 then Err(NegativeSlot(slot))
      else if slot >= size then Err(SlotBeyondSize(slot, size))
      else
        TableComplete();
        Ok(groupsBySlot[slot].value)
    }

    /** The first group, in iteration order, that satisfies the predicate, or
        None when no group does. */
    method FindGroup(matches: SlotGroup -> bool) returns (r: Option<SlotGroup>)
      ensures r.None? ==> forall k :: 0 <= k < |groups| ==> !matches(groups[k])
      ensures r.Some? ==>
                (exists i :: 0 <= i < |groups| && groups[i] == r.value && matches(groups[i]) &&
                   forall k :: 0 <= k < i ==> !matches(groups[k]))
    {
      var i := 0;
      while i < |groups|
        invariant 0 <= i <= |groups|
        invariant forall k :: 0 <= k < i ==> !matches(groups[k])
      {
        if matches(groups[i]) {
          return Some(groups[i]);
        }
        i := i + 1;
      }
      return None;
    }

    /** The first group carrying the character identifier; fails exactly when
        no group carries it. */
    method GetGroupByIdentifier(identifier: char) returns (r: Result<SlotGroup>)
      ensures r.Err? <==> forall k :: 0 <= k < |groups| ==> groups[k].charId != identifier
      ensures r.Err? ==> r.error == NoGroupWithIdentifier(identifier)
      ensures r.Ok? ==>
                (exists i :: 0 <= i < |groups| && groups[i] == r.value && r.value.charId == identifier &&
                   forall k :: 0 <= k < i ==> groups[k].charId != identifier)
    {
      var found := FindGroup((g: SlotGroup) => g.charId == identifier);
      if found.Some? {
        r := Ok(found.value);
      } else {
        r := Err(NoGroupWithIdentifier(identifier));
      }
    }

    /** The first group with the name; fails exactly when no group has it. */
    method GetGroupByName(name: string) returns (r: Result<SlotGroup>)
      ensures r.Err? <==> forall k :: 0 <= k < |groups| ==> groups[k].name != name
      ensures r.Err? ==> r.error == NoGroupWithName(name)
      ensures r.Ok? ==>
                (exists i :: 0 <= i < |groups| && groups[i] == r.value && r.value.name == name &&
                   forall k :: 0 <= k < i ==> groups[k].name != name)
    {
      var found := FindGroup((g: SlotGroup) => g.name == name);
      if found.Some? {
        r := Ok(found.value);
      } else {
        r := Err(NoGroupWithName(name));
      }
    }
  }

  /** The validating constructor: walks every slot of every group in iteration
      order, rejects a slot outside [0, size) or one already claimed, records
      the owning group in the table, and finally rejects incomplete coverage.
      It fails with exactly the failure `Validate` names, so it succeeds exactly
      on partitions of [0, size). */
  method Build(size: nat, title: Option<string>, groups: seq<SlotGroup>) returns (r: Result<Layout>)
    ensures r.Err? <==> Validate(groups, size).Some?
    ensures r.Err? ==> r.error == Validate(groups, size).value
    ensures r.Ok? ==> fresh(r.value) && fresh(r.value.groupsBySlot) && r.value.Valid()
    ensures r.Ok? ==> r.value.size == size && r.value.title == title && r.value.groups == groups
  {
    var table := new Option<SlotGroup>[size](_ => None);
    var claimed: set<int> := {};
    var i := 0;
    while i < |groups|
      invariant 0 <= i <= |groups|
      invariant CheckGroups(groups, size, {}) == CheckGroups(groups[i..], size, claimed)
      invariant forall i', j' :: 0 <= i' < i && 0 <= j' < |groups[i'].slots| ==>
                  0 <= groups[i'].slots[j'] < size && groups[i'].slots[j'] in claimed &&
                  table[groups[i'].slots[j']] == Some(groups[i'])
    {
      var group := groups[i];
      ghost var before := claimed;
      assert CheckGroups(groups[i..], size, before) ==
             match CheckSlots(group.slots, size, before)
             case Err(e) => Err(e)
             case Ok(next) => CheckGroups(groups[i + 1..], size, next)
      by {
        assert groups[i..][1..] == groups[i + 1..];
      }
      var j := 0;
      while j < |group.slots|
        invariant 0 <= j <= |group.slots|
        invariant CheckSlots(group.slots, size, before) == CheckSlots(group.slots[j..], size, claimed)
        invariant before <= claimed
        invariant forall i', j' :: 0 <= i' < i && 0 <= j' < |groups[i'].slots| ==>
                    0 <= groups[i'].slots[j'] < size && groups[i'].slots[j'] in claimed &&
                    table[groups[i'].slots[j']] == Some(groups[i'])
        invariant forall j' :: 0 <= j' < j ==>
                    0 <= group.slots[j'] < size && group.slots[j'] in claimed &&
                    table[group.slots[j']] == Some(group)
      {
        var slot := group.slots[j];
        if !(0 <= slot < size) {
          return Err(SlotOutOfBounds(slot, size));
        }
        if slot in claimed {
          return Err(SlotClaimedTwice(slot));
        }
        assert group.slots[j..][1..] == group.slots[j + 1..];
        claimed := claimed + {slot};
        table[slot] := Some(group);
        j := j + 1;
      }
      i := i + 1;
    }
    if |claimed| != size {
      return Err(IncompleteCoverage(|claimed|, size));
    }
    ValidateIffPartition(groups, size);
    var layout := new Layout(size, title, groups, table);
    r := Ok(layout);
  }
}
