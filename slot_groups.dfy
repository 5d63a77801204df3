/** Values shared by the layout validation and the layout itself: slot groups,
    the failures the layout reports, and the wrappers that carry them. */
module SlotGroups {

  /** A named group of container slots. `charId` is the single character that
      identifies the group in compact layout declarations; `slots` is the
      sequence a `for (int slot : group)` loop walks over. */
  datatype SlotGroup = SlotGroup(name: string, charId: char, slots: seq<int>)

  /** The failures of the modelled checks, one constructor per exception they throw. */
  datatype LayoutError =
    | SlotOutOfBounds(slot: int, size: int)       // a group declares a slot outside [0, size)
    | SlotClaimedTwice(slot: int)                 // a slot is produced by more than one iteration
    | IncompleteCoverage(covered: nat, size: int) // fewer distinct slots than the container holds
    | NegativeSlot(slot: int)                     // slot lookup with a negative index
    | SlotBeyondSize(slot: int, size: int)        // slot lookup at or past the container size
    | NoGroupWithIdentifier(identifier: char)     // no group carries this character
    | NoGroupWithName(name: string)               // no group carries this name

  /** A value the source represents by a nullable reference. */
  datatype Option<+T> = None | Some(value: T)

  /** The outcome of an operation that either returns a value or throws. */
  datatype Result<+T> = Ok(value: T) | Err(error: LayoutError)
}
