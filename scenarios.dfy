/** Concrete layouts: what the validation reports for small containers, and
    what a client can conclude from the layout's contracts alone. */
module Scenarios {
  import opened SlotGroups
  import opened LayoutValidation
  import opened InventoryLayouts

  function Top(): (r: SlotGroup) { SlotGroup("top", 't', [0, 1, 2]) }
  function Bottom(): (r: SlotGroup) { SlotGroup("bottom", 'b', [3, 4, 5, 6, 7, 8]) }

  /** The slots lo, lo + 1, ..., hi - 1, as a builder declares a row. */
  function Run(lo: int, hi: int): (r: seq<int>)
    requires lo <= hi
  {
    seq(hi - lo, k => lo + k)
  }

  /** Claiming a run of slots that continues the slots already claimed. */
  lemma {:induction false} RunClaims(lo: nat, hi: nat, size: nat)
    requires lo <= hi <= size
    ensures CheckSlots(Run(lo, hi), size, SlotRange(lo)) == Ok(SlotRange(hi))
    decreases hi - lo
  {
    if lo < hi {
      assert Run(lo, hi)[1..] == Run(lo + 1, hi);
      assert SlotRange(lo) + {lo} == SlotRange(lo + 1);
      RunClaims(lo + 1, hi, size);
    }
  }

  /** Two groups covering a nine-slot container, in either iteration order. */
  lemma TopAndBottomPartition()
    ensures Validate([Top(), Bottom()], 9) == None
    ensures Validate([Bottom(), Top()], 9) == None
  {
    assert Top().slots == Run(0, 3);
    assert Bottom().slots == Run(3, 9);
    RunClaims(0, 3, 9);
    RunClaims(3, 9, 9);
    assert SlotRange(0) == {};
    assert [Top(), Bottom()][1..] == [Bottom()];
    assert CheckGroups([Top(), Bottom()], 9, {}) == Ok(SlotRange(9));
    SlotRangeSize(9);
    ValidateOrderIndependent([Top(), Bottom()], [Bottom(), Top()], 9);
  }

  /** One group leaving slot 8 of nine unowned. */
  lemma GapIsIncomplete()
    ensures Validate([SlotGroup("most", 'm', [0, 1, 2, 3, 4, 5, 6, 7])], 9) == Some(IncompleteCoverage(8, 9))
  {
    var most := SlotGroup("most", 'm', [0, 1, 2, 3, 4, 5, 6, 7]);
    assert most.slots == Run(0, 8);
    RunClaims(0, 8, 9);
    assert SlotRange(0) == {};
    assert CheckGroups([most], 9, {}) == Ok(SlotRange(8));
    SlotRangeSize(8);
  }

  /** Two groups both declaring slot 4. */
  lemma SharedSlotIsClaimedTwice()
    ensures Validate([SlotGroup("a", 'a', [4]), SlotGroup("b", 'b', [4])], 9) == Some(SlotClaimedTwice(4))
  {
  }

  /** A group declaring slot 10 of a five-slot container. */
  lemma SlotTenIsOutOfBounds()
    ensures Validate([SlotGroup("far", 'f', [10])], 5) == Some(SlotOutOfBounds(10, 5))
  {
  }

  /** Building the two-group layout and looking groups up, using only the
      contracts of the layout. */
  method TopAndBottomLookups()
  {
    TopAndBottomPartition();
    var built := Build(9, Some("Menu"), [Top(), Bottom()]);
    var layout := built.value;
    assert layout.GetGroupBySlot(4) == Ok(Bottom()) by {
      assert 4 in Bottom().slots;
    }
    assert layout.GetGroupBySlot(0) == Ok(Top()) by {
      assert 0 in Top().slots;
    }
    assert layout.GetGroupBySlot(9) == Err(SlotBeyondSize(9, 9));
  }

  /** A one-group layout of size three, looked up by its identifier. */
  method SingleGroupLookups()
  {
    var all := SlotGroup("all", 'a', [0, 1, 2]);
    assert Validate([all], 3) == None by {
      assert SlotRange(3) == {0, 1, 2};
      assert Claims([all]) == multiset{0, 1, 2};
      ValidateIffPartition([all], 3);
    }
    var built := Build(3, None, [all]);
    var layout := built.value;
    var byChar := layout.GetGroupByIdentifier('a');
    assert byChar == Ok(all);
    var missing := layout.GetGroupByIdentifier('z');
    assert missing == Err(NoGroupWithIdentifier('z'));
    assert layout.GetGroupBySlot(5) == Err(SlotBeyondSize(5, 3));
  }
}
