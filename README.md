# Inventory layout: validated slot partition and slot-to-group table

This project models the result object of Dough's inventory layout builder
(`InventoryLayoutBuilderResult`). A layout has a container `size`, an optional
`title` and a set of slot groups. Each group has a name, a character
identifier and the slot indices it declares. The constructor walks every slot
of every group. It rejects a slot outside `[0, size)` and a slot that an
earlier iteration already claimed. It records the owning group in a
direct-indexed `groupsBySlot` array. Finally it rejects the layout unless the
number of distinct claimed slots equals `size`. The finished layout is
read-only. It answers three lookups: by slot (a bounds-checked array read), by
character identifier and by name (linear scans that return the first match).

Files:

- `slot_groups.dfy` (module `SlotGroups`): the `SlotGroup` value, one
  `LayoutError` constructor per exception of the modelled checks, and the `Option` and
  `Result` wrappers.
- `layout_validation.dfy` (module `LayoutValidation`): the constructor's two
  nested loops as the functions `CheckSlots` and `CheckGroups`, and the final
  coverage check as `Validate`, which gives the first failure the constructor
  reports. `Claims` is the multiset of every declared slot.
  `IsPartition(gs, size)` says that multiset is exactly `{0, ..., size - 1}`,
  each slot once. The lemmas prove that construction succeeds exactly on
  partitions, that success does not depend on group order, and what a
  partition guarantees about each group.
- `inventory_layout.dfy` (module `InventoryLayouts`): the class `Layout`, with
  the source's final fields as `const` fields and `groupsBySlot` as an
  `array<Option<SlotGroup>>`. `None` plays the role of the array's initial
  `null`. `Valid()` is the object invariant. The method `Build` is the
  validating constructor: a nested `while` loop over a fresh array and a
  claimed-slot set, proved to fail with exactly the failure `Validate` names.
  On success it freezes the array into a `Layout`. The class also holds the
  queries.
- `scenarios.dfy` (module `Scenarios`): concrete layouts of three, five and nine
  slots. Two client methods use only the contracts to build a layout and look
  groups up.

The getters map as follows:

- `getSize` and `getTitle` are the `const` fields `size` and `title`. `Build`
  ensures they hold the values it was given.
- `getSlotGroups` is `GetSlotGroups`. It returns the group set as an immutable
  set value.

Behaviour of the code that the model keeps:

- The code accepts `size == 0`. With no groups, or only groups that declare no
  slots, line 47 compares 0 with 0 and construction succeeds.
- The null check runs inside the group loop (line 34), one group at a time. An
  out-of-bounds or duplicate slot in a group iterated earlier is therefore
  reported first.
- The identifier is compared as a plain `char` (line 69).
- Nothing in the code rejects duplicate names or identifiers. The name and
  identifier lookups return the first match in iteration order (lines
  103-111), and `GetGroupByName` and `GetGroupByIdentifier` state exactly that.

## Model

| member | source | states |
|---|---|---|
| LayoutValidation.CheckSlotsCharacterized | dough-inventories/src/main/java/io/github/thebusybiscuit/dough/inventory/builders/InventoryLayoutBuilderResult.java:36-44 | The slot loop of one group succeeds exactly when every slot lies in [0, size) and no slot repeats, neither within the group nor against the slots claimed before. On success the claimed set grows by exactly the group's slots. |
| LayoutValidation.CheckGroupsCharacterized | dough-inventories/src/main/java/io/github/thebusybiscuit/dough/inventory/builders/InventoryLayoutBuilderResult.java:33-45 | The group loop succeeds exactly when every slot any group declares is in bounds and no slot is produced twice across all groups' iterations. On success the claimed set is exactly the set of declared slots. |
| LayoutValidation.ValidateIffPartition | dough-inventories/src/main/java/io/github/thebusybiscuit/dough/inventory/builders/InventoryLayoutBuilderResult.java:31-49 | Construction reports no failure exactly when the groups partition [0, size): every slot declared once, by one group, and nothing outside the range. |
| LayoutValidation.ClaimsPermutation | dough-inventories/src/main/java/io/github/thebusybiscuit/dough/inventory/builders/InventoryLayoutBuilderResult.java:22-28 | Any iteration order of the same group collection declares the same multiset of slots. |
| LayoutValidation.ValidateOrderIndependent | dough-inventories/src/main/java/io/github/thebusybiscuit/dough/inventory/builders/InventoryLayoutBuilderResult.java:31-41 | Whether construction fails does not depend on the iteration order of the group set. Only which failure comes first can change. |
| LayoutValidation.PartitionInBounds | dough-inventories/src/main/java/io/github/thebusybiscuit/dough/inventory/builders/InventoryLayoutBuilderResult.java:37 | In a successfully validated layout, no group declares a slot that is negative or at least size. |
| LayoutValidation.PartitionCovers | dough-inventories/src/main/java/io/github/thebusybiscuit/dough/inventory/builders/InventoryLayoutBuilderResult.java:47-49 | In a successfully validated layout, every slot of [0, size) is declared by some group. |
| LayoutValidation.PartitionDisjoint | dough-inventories/src/main/java/io/github/thebusybiscuit/dough/inventory/builders/InventoryLayoutBuilderResult.java:39-41 | In a successfully validated layout, no two groups share a slot, and no group declares a slot twice. |
| InventoryLayouts.Build | dough-inventories/src/main/java/io/github/thebusybiscuit/dough/inventory/builders/InventoryLayoutBuilderResult.java:25-50 | Fails exactly when `Validate` names a failure, and with that failure: out of bounds, then claimed twice, in iteration order, then incomplete coverage with the number of distinct claimed slots. On success it returns a fresh, valid layout with a fresh table, holding the given size, title and groups. |
| InventoryLayouts.Layout.constructor | dough-inventories/src/main/java/io/github/thebusybiscuit/dough/inventory/builders/InventoryLayoutBuilderResult.java:25-29 | Freezes a filled table together with size, title and groups into a layout that satisfies the invariant. |
| InventoryLayouts.Layout.TableComplete | dough-inventories/src/main/java/io/github/thebusybiscuit/dough/inventory/builders/InventoryLayoutBuilderResult.java:36-47 | In a valid layout, every table entry in [0, size) is non-null. For every group g and every slot s that g declares, the entry at s is g. |
| InventoryLayouts.Layout.SlotGroupsPartition | dough-inventories/src/main/java/io/github/thebusybiscuit/dough/inventory/builders/InventoryLayoutBuilderResult.java:53-55 | The group set a valid layout hands out partitions [0, size): every group stays in range, every slot belongs to a group, and distinct groups share no slot. |
| InventoryLayouts.Layout.GetGroupBySlot | dough-inventories/src/main/java/io/github/thebusybiscuit/dough/inventory/builders/InventoryLayoutBuilderResult.java:78-89 | Fails with a negative-slot error when slot < 0, and with an out-of-size error when slot >= size. Otherwise it returns a group of the layout that declares slot, and that group is the only one declaring it. |
| InventoryLayouts.Layout.FindGroup | dough-inventories/src/main/java/io/github/thebusybiscuit/dough/inventory/builders/InventoryLayoutBuilderResult.java:102-111 | Returns the first group in iteration order that satisfies the predicate. Returns None exactly when no group does. Never returns a group that fails the predicate. |
| InventoryLayouts.Layout.GetGroupByIdentifier | dough-inventories/src/main/java/io/github/thebusybiscuit/dough/inventory/builders/InventoryLayoutBuilderResult.java:67-76 | Fails, with a not-found error for that identifier, exactly when no group carries it. Otherwise returns the first group in iteration order whose identifier matches. |
| InventoryLayouts.Layout.GetGroupByName | dough-inventories/src/main/java/io/github/thebusybiscuit/dough/inventory/builders/InventoryLayoutBuilderResult.java:91-100 | Fails, with a not-found error for that name, exactly when no group has it. Otherwise returns the first group in iteration order whose name matches. |
| Scenarios.RunClaims | dough-inventories/src/main/java/io/github/thebusybiscuit/dough/inventory/builders/InventoryLayoutBuilderResult.java:36-44 | A group declaring the consecutive slots lo..hi-1, after 0..lo-1 were claimed, extends the claimed slots to exactly 0..hi-1. |
| Scenarios.TopAndBottomPartition | dough-inventories/src/main/java/io/github/thebusybiscuit/dough/inventory/builders/InventoryLayoutBuilderResult.java:31-49 | Groups "top" (0-2) and "bottom" (3-8) validate for size 9, in either order. |
| Scenarios.GapIsIncomplete | dough-inventories/src/main/java/io/github/thebusybiscuit/dough/inventory/builders/InventoryLayoutBuilderResult.java:47-49 | One group declaring slots 0-7 of a size-9 container fails with incomplete coverage, 8 of 9. |
| Scenarios.SharedSlotIsClaimedTwice | dough-inventories/src/main/java/io/github/thebusybiscuit/dough/inventory/builders/InventoryLayoutBuilderResult.java:39-41 | Two groups that both declare slot 4 fail with a claimed-twice error for slot 4. |
| Scenarios.SlotTenIsOutOfBounds | dough-inventories/src/main/java/io/github/thebusybiscuit/dough/inventory/builders/InventoryLayoutBuilderResult.java:37 | A group declaring slot 10 of a size-5 container fails with an out-of-bounds error. |

## Left out

- The null-group check (line 34) is not modelled. A Dafny datatype value cannot be null, so no group in the sequence can be missing.
- A negative `size` is not modelled. Line 29 would throw the JVM's `NegativeArraySizeException` there; the model takes `size` as a `nat`.
- The exception classes and message texts are not modelled. Each exception is a `LayoutError` constructor that carries the values its message names.
- `HashSet` hashing is not modelled. The group set is the sequence in which it iterates, an arbitrary but fixed order. `addAll` merging equal groups is part of producing that sequence, and `Build` does not require it to be duplicate-free.
- `Collections.unmodifiableSet` is not modelled as a wrapper. `GetSlotGroups` returns an immutable set value.
- Thread-safety of the finished layout is not modelled.
- UTF-16 surrogate code units (U+D800 to U+DFFF) are not modelled. A Dafny `char` is a Unicode scalar value, so a Java identifier, name or title that contains a lone surrogate cannot be represented.
- A Dafny constructor cannot fail. `Build` therefore fills a fresh local array and then hands it to the `Layout` constructor. It ensures the array is fresh, so when `Build` returns, nothing else holds a reference to the table.
- The table is not private. Java's `groupsBySlot` is `private` (line 23), but the model's `groupsBySlot` is a public `const` reference to an array whose entries can still be written. No `Layout` member writes the table, and this Dafny model has no private fields. So after construction nothing enforces that the table stays read-only: a client allowed to modify `layout.groupsBySlot` could break `Valid()`.
- `SlotGroup` and `InventoryLayoutBuilder` are not part of this model. A group is a value with a name, a character identifier and a slot sequence; how the builder declares groups is out of scope.
- `InventoryLayout` is the interface the class implements. It has no behaviour of its own; its methods are the queries above.
