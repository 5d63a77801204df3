/** The checks the layout constructor performs, as functions over the group
    sequence, and what their success means: the groups partition [0, size). */
module LayoutValidation {
  import opened SlotGroups

  /** The slot indices of a container of the given size. */
  ghost function SlotRange(size: nat): (r: set<int>)
    ensures forall s :: s in r <==> 0 <= s < size
  {
    if size == 0 then {} else SlotRange(size - 1) + {size - 1}
  }

  /** Every slot each group declares, counted once per time it is declared. */
  ghost function Claims(gs: seq<SlotGroup>): (r: multiset<int>)
  {
    if gs == [] then multiset{} else multiset(gs[0].slots) + Claims(gs[1..])
  }

  /** The groups partition the container: the slots they declare, counted with
      repetition, are exactly 0, 1, ..., size - 1, each declared once. */
  ghost predicate IsPartition(gs: seq<SlotGroup>, size: nat)
  {
    Claims(gs) == multiset(SlotRange(size))
  }

  ghost predicate InBounds(m: multiset<int>, size: nat)
  {
    forall s :: s in m ==> 0 <= s < size
  }

  /** No element occurs more than once. */
  ghost predicate Unique(m: multiset<int>)
  {
    forall s :: m[s] <= 1
  }

  ghost function Support(m: multiset<int>): (r: set<int>)
  {
    set s | s in m
  }

  lemma InBoundsSum(a: multiset<int>, b: multiset<int>, size: nat)
    ensures InBounds(a + b, size) <==> InBounds(a, size) && InBounds(b, size)
  {
    if InBounds(a, size) && InBounds(b, size) {
      forall s | s in a + b ensures 0 <= s < size {
        assert s in a || s in b;
      }
    }
    if InBounds(a + b, size) {
      forall s | s in a ensures 0 <= s < size {
        assert s in a + b;
      }
      forall s | s in b ensures 0 <= s < size {
        assert s in a + b;
      }
    }
  }

  /** The inner loop of the constructor over one group's slots: each slot must
      lie in [0, size) and must not be claimed yet, and is then claimed. The
      result is the grown claimed set, or the first failure met. */
  function CheckSlots(ss: seq<int>, size: nat, claimed: set<int>): (r: Result<set<int>>)
  {
    if ss == [] then Ok(claimed)
    else if !(0 <= ss[0] < size) then Err(SlotOutOfBounds(ss[0], size))
    else if ss[0] in claimed then Err(SlotClaimedTwice(ss[0]))
    else CheckSlots(ss[1..], size, claimed + {ss[0]})
  }

  /** The outer loop of the constructor: the inner loop for each group in turn. */
  function CheckGroups(gs: seq<SlotGroup>, size: nat, claimed: set<int>): (r: Result<set<int>>)
  {
    if gs == [] then Ok(claimed)
    else
      match CheckSlots(gs[0].slots, size, claimed)
      case Err(e) => Err(e)
      case Ok(next) => CheckGroups(gs[1..], size, next)
  }

  /** The failure the constructor reports for these groups, if any: the first
      failure of the loops, else incomplete coverage when the number of
      distinct claimed slots differs from the size. */
  function Validate(gs: seq<SlotGroup>, size: nat): (r: Option<LayoutError>)
  {
    match CheckGroups(gs, size, {})
    case Err(e) => Some(e)
    case Ok(claimed) =>
      if |claimed| != size then Some(IncompleteCoverage(|claimed|, size)) else None
  }

  // ----- Construction succeeds exactly on partitions -----

  /** The slot loop succeeds exactly when every slot is in bounds and no slot
      repeats, neither within `ss` nor against what was claimed before; it then
      claims the slots of `ss`. */
  lemma {:induction false} CheckSlotsCharacterized(ss: seq<int>, size: nat, claimed: set<int>)
    ensures CheckSlots(ss, size, claimed).Ok? <==>
              InBounds(multiset(ss), size) && Unique(multiset(ss) + multiset(claimed))
    ensures CheckSlots(ss, size, claimed).Ok? ==>
              CheckSlots(ss, size, claimed).value == claimed + Support(multiset(ss))
  {
    if ss == [] {
      assert multiset(ss) == multiset{};
      assert Support(multiset(ss)) == {};
    } else {
      var s, rest := ss[0], ss[1..];
      assert ss == [s] + rest;
      assert multiset(ss) == multiset{s} + multiset(rest);
      if !(0 <= s < size) {
        assert s in multiset(ss);
      } else if s in claimed {
        assert (multiset(ss) + multiset(claimed))[s] >= 2;
      } else {
        CheckSlotsCharacterized(rest, size, claimed + {s});
        InBoundsSum(multiset{s}, multiset(rest), size);
        assert multiset(claimed + {s}) == multiset(claimed) + multiset{s};
        assert multiset(rest) + multiset(claimed + {s}) == multiset(ss) + multiset(claimed);
        assert Support(multiset(ss)) == {s} + Support(multiset(rest));
      }
    }
  }

  /** Claiming the support of a multiset that is disjoint from, and adds no
      repetition to, a claimed set. */
  lemma ClaimUnique(m: multiset<int>, claimed: set<int>)
    requires Unique(m + multiset(claimed))
    ensures multiset(claimed + Support(m)) == m + multiset(claimed)
  {
    forall s ensures multiset(claimed + Support(m))[s] == (m + multiset(claimed))[s] {
      assert (m + multiset(claimed))[s] <= 1;
    }
  }

  /** The group loop succeeds exactly when every declared slot is in bounds and
      no slot is declared twice or was claimed before; it then claims them all. */
  lemma {:induction false} CheckGroupsCharacterized(gs: seq<SlotGroup>, size: nat, claimed: set<int>)
    ensures CheckGroups(gs, size, claimed).Ok? <==>
              InBounds(Claims(gs), size) && Unique(Claims(gs) + multiset(claimed))
    ensures CheckGroups(gs, size, claimed).Ok? ==>
              CheckGroups(gs, size, claimed).value == claimed + Support(Claims(gs))
  {
    if gs == [] {
      assert Support(Claims(gs)) == {};
    } else {
      var first := multiset(gs[0].slots);
      var rest := Claims(gs[1..]);
      assert Claims(gs) == first + rest;
      InBoundsSum(first, rest, size);
      CheckSlotsCharacterized(gs[0].slots, size, claimed);
      if CheckSlots(gs[0].slots, size, claimed).Ok? {
        var next := claimed + Support(first);
        CheckGroupsCharacterized(gs[1..], size, next);
        ClaimUnique(first, claimed);
        assert rest + multiset(next) == Claims(gs) + multiset(claimed);
        assert Support(Claims(gs)) == Support(first) + Support(rest);
        if Unique(Claims(gs) + multiset(claimed)) {
          forall s ensures (first + multiset(claimed))[s] <= 1 {
            assert (Claims(gs) + multiset(claimed))[s] <= 1;
          }
        }
      } else if InBounds(Claims(gs), size) && Unique(Claims(gs) + multiset(claimed)) {
        forall s ensures (first + multiset(claimed))[s] <= 1 {
          assert (Claims(gs) + multiset(claimed))[s] <= 1;
        }
        assert false;
      }
    }
  }

  lemma {:induction false} SlotRangeSize(size: nat)
    ensures |SlotRange(size)| == size
  {
    if size > 0 {
      SlotRangeSize(size - 1);
      assert SlotRange(size) == SlotRange(size - 1) + {size - 1};
    }
  }

  /** A subset as large as its superset is the superset. */
  lemma FullSubset(a: set<int>, b: set<int>)
    requires a <= b && |a| == |b|
    ensures a == b
  {
    assert b == a + (b - a);
    assert a * (b - a) == {};
    assert |b - a| == 0;
  }

  /** Construction succeeds exactly when the groups partition [0, size). */
  lemma ValidateIffPartition(gs: seq<SlotGroup>, size: nat)
    ensures Validate(gs, size) == None <==> IsPartition(gs, size)
  {
    CheckGroupsCharacterized(gs, size, {});
    var none: set<int> := {};
    assert Claims(gs) + multiset(none) == Claims(gs);
    SlotRangeSize(size);
    var range := multiset(SlotRange(size));
    if Validate(gs, size) == None {
      var claimed := Support(Claims(gs));
      assert claimed <= SlotRange(size);
      FullSubset(claimed, SlotRange(size));
      forall s ensures Claims(gs)[s] == range[s] {
        assert Claims(gs)[s] <= 1;
        assert s in Claims(gs) <==> s in claimed;
      }
    }
    if IsPartition(gs, size) {
      forall s ensures Claims(gs)[s] <= 1 {
        assert range[s] <= 1;
      }
      assert Support(Claims(gs)) == SlotRange(size);
    }
  }

  // ----- Success does not depend on the order the groups are visited in -----

  lemma {:induction false} ClaimsAppend(a: seq<SlotGroup>, b: seq<SlotGroup>)
    ensures Claims(a + b) == Claims(a) + Claims(b)
  {
    if a == [] {
      assert a + b == b;
    } else {
      assert (a + b)[1..] == a[1..] + b;
      ClaimsAppend(a[1..], b);
    }
  }

  /** Taking the group at index k out of the sequence takes one copy of it
      out of the group multiset ... */
  lemma RemoveAt(hs: seq<SlotGroup>, k: int)
    requires 0 <= k < |hs|
    ensures multiset(hs[..k] + hs[k + 1..]) == multiset(hs) - multiset{hs[k]}
  {
    var before, after := hs[..k], hs[k + 1..];
    assert hs == before + ([hs[k]] + after);
  }

  /** ... and its slots out of the claims. */
  lemma ClaimsRemove(hs: seq<SlotGroup>, k: int)
    requires 0 <= k < |hs|
    ensures Claims(hs) == multiset(hs[k].slots) + Claims(hs[..k] + hs[k + 1..])
  {
    ClaimsSplit(hs, k);
    ClaimsAppend(hs[..k], hs[k + 1..]);
  }

  /** Reordering the groups does not change the slots they claim. */
  lemma {:induction false} ClaimsPermutation(gs: seq<SlotGroup>, hs: seq<SlotGroup>)
    requires multiset(gs) == multiset(hs)
    ensures Claims(gs) == Claims(hs)
    decreases |gs|
  {
    if gs == [] {
      assert |hs| == |multiset(hs)|;
    } else {
      var g, rest := gs[0], gs[1..];
      assert gs == [g] + rest;
      var k := Locate(hs, g);
      RemoveAt(hs, k);
      ClaimsRemove(hs, k);
      ClaimsPermutation(rest, hs[..k] + hs[k + 1..]);
    }
  }

  /** An index at which a group that occurs in the sequence sits. */
  lemma Locate(hs: seq<SlotGroup>, g: SlotGroup) returns (k: int)
    requires g in multiset(hs)
    ensures 0 <= k < |hs| && hs[k] == g
  {
    assert g in hs;
    k :| 0 <= k < |hs| && hs[k] == g;
  }

  /** Whether construction fails does not depend on the iteration order of the
      group set; only which failure is reported first can differ. */
  lemma ValidateOrderIndependent(gs: seq<SlotGroup>, hs: seq<SlotGroup>, size: nat)
    requires multiset(gs) == multiset(hs)
    ensures Validate(gs, size) == None <==> Validate(hs, size) == None
  {
    ClaimsPermutation(gs, hs);
    ValidateIffPartition(gs, size);
    ValidateIffPartition(hs, size);
  }

  // ----- What a partition guarantees about individual groups -----

  /** The slots of the group at index i are part of all claims, beside those of
      the groups before and after it. */
  lemma ClaimsSplit(gs: seq<SlotGroup>, i: int)
    requires 0 <= i < |gs|
    ensures Claims(gs) == Claims(gs[..i]) + multiset(gs[i].slots) + Claims(gs[i + 1..])
  {
    assert gs == gs[..i] + gs[i..];
    ClaimsAppend(gs[..i], gs[i..]);
    assert gs[i..][1..] == gs[i + 1..];
  }

  lemma {:induction false} ClaimedByGroup(gs: seq<SlotGroup>, s: int)
    requires s in Claims(gs)
    ensures exists i :: 0 <= i < |gs| && s in gs[i].slots
  {
    if s !in multiset(gs[0].slots) {
      ClaimedByGroup(gs[1..], s);
      var i :| 0 <= i < |gs[1..]| && s in gs[1..][i].slots;
      assert s in gs[i + 1].slots;
    }
  }

  /** In a partition every group declares slots inside [0, size) only. */
  lemma PartitionInBounds(gs: seq<SlotGroup>, size: nat)
    requires IsPartition(gs, size)
    ensures forall i, s :: 0 <= i < |gs| && s in gs[i].slots ==> 0 <= s < size
  {
    forall i, s | 0 <= i < |gs| && s in gs[i].slots ensures 0 <= s < size {
      ClaimsSplit(gs, i);
      assert s in Claims(gs);
    }
  }

  /** In a partition every slot of [0, size) is declared by some group. */
  lemma PartitionCovers(gs: seq<SlotGroup>, size: nat)
    requires IsPartition(gs, size)
    ensures forall s :: s in SlotRange(size) ==> exists i :: 0 <= i < |gs| && s in gs[i].slots
  {
    forall s | s in SlotRange(size) ensures exists i :: 0 <= i < |gs| && s in gs[i].slots {
      ClaimedByGroup(gs, s);
    }
  }

  /** In a partition no slot is declared twice: not by two groups, and not
      twice within one group. */
  lemma PartitionDisjoint(gs: seq<SlotGroup>, size: nat)
    requires IsPartition(gs, size)
    ensures forall i, j, s :: 0 <= i < j < |gs| && s in gs[i].slots ==> s !in gs[j].slots
    ensures forall i, s :: 0 <= i < |gs| ==> multiset(gs[i].slots)[s] <= 1
  {
    assert forall s :: Claims(gs)[s] <= 1 by {
      forall s ensures Claims(gs)[s] <= 1 {
        assert multiset(SlotRange(size))[s] <= 1;
      }
    }
    forall i, j, s | 0 <= i < j < |gs| && s in gs[i].slots ensures s !in gs[j].slots {
      ClaimsSplit(gs, i);
      var after := gs[i + 1..];
      ClaimsSplit(after, j - i - 1);
      assert after[j - i - 1] == gs[j];
      assert Claims(gs)[s] >= multiset(gs[i].slots)[s] + multiset(gs[j].slots)[s];
    }
    forall i, s | 0 <= i < |gs| ensures multiset(gs[i].slots)[s] <= 1 {
      ClaimsSplit(gs, i);
      assert Claims(gs)[s] <= 1;
    }
  }
}
