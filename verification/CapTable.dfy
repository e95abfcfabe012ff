/** The generation-counted capability table of `rvm-cap/src/table.rs`. */
module CapTable {
  import opened Types

  const U32_MAX: nat := 0xFFFF_FFFF

  datatype CapType =
    Partition | Region | CommEdge | Device | Scheduler | WitnessLogCap | Proof | Vcpu | Coherence | Context

  datatype Right = READ | WRITE | GRANT | REVOKE | EXECUTE | PROVE | GRANT_ONCE

  /** The rights bitmap. `contains` is superset, `union` and `difference` are the set operations. */
  type CapRights = set<Right>

  datatype CapToken = CapToken(id: nat, capType: CapType, rights: CapRights, epoch: nat)

  datatype CapError =
    InvalidHandle | StaleHandle | TableFull | Revoked | DelegationDepthExceeded
    | GrantNotPermitted | RightsEscalation | TreeFull

  datatype CapSlot = CapSlot(
    token: CapToken, generation: nat, owner: PartitionId, depth: nat, parentIndex: nat, badge: nat)
  {
    predicate IsValid() {
      generation != 0
    }

    /** Frees the slot, stashing the next generation in `parentIndex`. */
    function Invalidate(): CapSlot {
      var nextGen := (generation + 1) % 0x1_0000_0000;
      var safeGen := if nextGen == 0 then 1 else nextGen;
      this.(parentIndex := safeGen, generation := 0)
    }

    /** The generation the next allocation of the slot gets. */
    function NextGeneration(): nat {
      if generation != 0 then generation
      else if parentIndex == U32_MAX then 1
      else parentIndex
    }
  }

  /** Freeing a slot keeps the number of its next allocation: the one after the last, from 1
      again once 32 bits are used up. */
  lemma InvalidateExactly(slot: CapSlot)
    requires 0 < slot.generation <= 0xFFFF_FFFF
    ensures
      var next := slot.Invalidate();
      && !next.IsValid() && next.parentIndex == (if slot.generation == 0xFFFF_FFFF then 1 else slot.generation + 1)
      && next.token == slot.token && next.owner == slot.owner && next.depth == slot.depth && next.badge == slot.badge
      && next.NextGeneration() == if slot.generation >= 0xFFFF_FFFE then 1 else slot.generation + 1
  {}

  const EMPTY_SLOT := CapSlot(CapToken(0, Region, {}, 0), 0, 0, 0, U32_MAX, 0)

  // ---- generations ------------------------------------------------------------------

  /** How many allocations of a slot pass before a generation comes back. */
  const GENERATION_CYCLE: nat := 0xFFFF_FFFE

  /** Generation of the allocation of a slot that `n` allocations preceded. */
  function GenOf(n: nat): (r: nat)
    ensures 1 <= r < U32_MAX
  {
    n % GENERATION_CYCLE + 1
  }

  /** The slot's counters after `issued` allocations. */
  ghost predicate Counts(slot: CapSlot, issued: nat) {
    if slot.IsValid() then issued >= 1 && slot.generation == GenOf(issued - 1)
    else slot.NextGeneration() == GenOf(issued)
  }

  /** Freeing a slot leaves it the next generation of the cycle. */
  lemma InvalidateCounts(slot: CapSlot, issued: nat)
    requires slot.IsValid() && Counts(slot, issued)
    ensures Counts(slot.Invalidate(), issued)
  {
    CycleStep(issued - 1);
  }

  lemma CycleStep(n: nat)
    ensures GenOf(n + 1) == if GenOf(n) == 0xFFFF_FFFE then 1 else GenOf(n) + 1
  {
    var c := GENERATION_CYCLE;
    assert n == n / c * c + n % c;
    if n % c == c - 1 {
      assert n + 1 == (n / c + 1) * c;
      ModUnique(n + 1, c, n / c + 1, 0);
    } else {
      ModUnique(n + 1, c, n / c, n % c + 1);
    }
  }

  lemma ModUnique(x: nat, c: nat, q: nat, r: nat)
    requires c > 0 && x == q * c + r && r < c
    ensures x % c == r
  {
    var d := x / c - q;
    assert d * c == r - x % c;
    if d >= 1 { MulAtLeast(d, c); }
    if d <= -1 { MulAtLeast(-d, c); }
  }

  lemma MulAtLeast(d: int, c: nat)
    requires d >= 1
    ensures d * c >= c
  {}

  /** A generation returns exactly after whole cycles, so a freed handle cannot
      resolve again before `2^32 - 2` further allocations of its slot. */
  lemma GenerationsReturn(m: nat, n: nat)
    requires m < n
    ensures GenOf(m) == GenOf(n) <==> (n - m) % 0xFFFF_FFFE == 0
  {
    var c := GENERATION_CYCLE;
    assert m == m / c * c + m % c && n == n / c * c + n % c;
    if m % c == n % c {
      assert n - m == (n / c - m / c) * c;
      ModUnique(n - m, c, n / c - m / c, 0);
    } else if (n - m) % c == 0 {
      var k := (n - m) / c;
      assert n - m == k * c;
      assert n == (m / c + k) * c + m % c;
      ModUnique(n, c, m / c + k, m % c);
    }
  }

  // ---- counting ---------------------------------------------------------------------

  ghost function ValidUpTo(slots: seq<CapSlot>, k: nat): nat
    requires k <= |slots|
  {
    if k == 0 then 0 else ValidUpTo(slots, k - 1) + if slots[k - 1].IsValid() then 1 else 0
  }

  lemma {:induction false} ValidChange(slots: seq<CapSlot>, slots': seq<CapSlot>, i: nat, k: nat)
    requires |slots'| == |slots| && i < |slots| && k <= |slots|
    requires forall x :: 0 <= x < |slots| && x != i ==> slots'[x].IsValid() == slots[x].IsValid()
    ensures ValidUpTo(slots', k) + (if i < k && slots[i].IsValid() then 1 else 0) ==
            ValidUpTo(slots, k) + (if i < k && slots'[i].IsValid() then 1 else 0)
  {
    if k > 0 { ValidChange(slots, slots', i, k - 1); }
  }

  lemma {:induction false} ValidFull(slots: seq<CapSlot>, k: nat)
    requires k <= |slots|
    ensures ValidUpTo(slots, k) <= k
    ensures ValidUpTo(slots, k) == k <==> forall x :: 0 <= x < k ==> slots[x].IsValid()
  {
    if k > 0 { ValidFull(slots, k - 1); }
  }

  /** The lowest free slot from `k` on, or the capacity when there is none. */
  ghost function LowestFree(slots: seq<CapSlot>, k: nat): (r: nat)
    requires k <= |slots|
    ensures k <= r <= |slots|
    ensures forall i :: k <= i < r ==> slots[i].IsValid()
    ensures r < |slots| ==> !slots[r].IsValid()
    decreases |slots| - k
  {
    if k == |slots| || !slots[k].IsValid() then k else LowestFree(slots, k + 1)
  }

  lemma LowestFreeFrom(slots: seq<CapSlot>, k: nat, i: nat)
    requires k <= i <= |slots| && (forall x :: k <= x < i ==> slots[x].IsValid())
    requires i < |slots| ==> !slots[i].IsValid()
    ensures LowestFree(slots, k) == i
  {}

  class CapabilityTable {
    const slots: array<CapSlot>
    var count: nat
    var freeHint: nat
    /** Allocations so far, slot by slot. */
    ghost var issued: seq<nat>

    ghost predicate Valid()
      reads this, slots
    {
      && slots.Length < U32_MAX && |issued| == slots.Length
      && count == ValidUpTo(slots[..], slots.Length)
      && freeHint <= slots.Length
      && (forall i :: 0 <= i < freeHint ==> slots[i].IsValid())
      && (forall i :: 0 <= i < slots.Length ==> Counts(slots[i], issued[i]))
    }

    constructor (capacity: nat)
      requires capacity < U32_MAX
      ensures fresh(slots) && Valid() && slots.Length == capacity && count == 0
      ensures slots[..] == seq(capacity, _ => EMPTY_SLOT) && issued == seq(capacity, _ => 0)
    {
      slots := new CapSlot[capacity](_ => EMPTY_SLOT);
      count, freeHint := 0, 0;
      issued := seq(capacity, _ => 0);
      new;
      NoneValid(slots[..], capacity);
    }

    static lemma {:induction false} NoneValid(s: seq<CapSlot>, k: nat)
      requires k <= |s| && forall i :: 0 <= i < |s| ==> !s[i].IsValid()
      ensures ValidUpTo(s, k) == 0
    {
      if k > 0 { NoneValid(s, k - 1); }
    }

    /** `insert_root` is the case of depth 0 and no parent, `insert_derived` the rest. */
    method Insert(token: CapToken, owner: PartitionId, depth: nat, parentIndex: nat, badge: nat)
        returns (r: Result<(nat, nat), CapError>)
      requires Valid()
      modifies this, slots
      ensures Valid()
      ensures r.Err? <==> old(count) == slots.Length
      ensures r.Err? <==> LowestFree(old(slots[..]), 0) == slots.Length
      ensures r.Err? ==> r == Err(TableFull) && slots[..] == old(slots[..]) && issued == old(issued)
      ensures r.Ok? ==>
        var i, g := r.value.0, r.value.1;
        && i == LowestFree(old(slots[..]), 0) < slots.Length
        && g == GenOf(old(issued)[i])
        && slots[..] == old(slots[..])[i := CapSlot(token, g, owner, depth, parentIndex, badge)]
        && issued == old(issued)[i := old(issued)[i] + 1]
    {
      var free := FindFreeSlot();
      if free == slots.Length {
        return Err(TableFull);
      }
      var generation := slots[free].NextGeneration();
      slots[free] := CapSlot(token, generation, owner, depth, parentIndex, badge);
      count := count + 1;
      ValidChange(old(slots[..]), slots[..], free, slots.Length);
      issued := issued[free := issued[free] + 1];
      assert slots[..] == old(slots[..])[free := CapSlot(token, generation, owner, depth, parentIndex, badge)];
      return Ok((free, generation));
    }

    /** Scans up from the hint, then the slots below it. The second scan never finds
        anything, because no slot below the hint is free. */
    method FindFreeSlot() returns (i: nat)
      requires Valid()
      modifies this`freeHint
      ensures i == LowestFree(slots[..], 0)
      ensures i == slots.Length <==> count == slots.Length
      ensures i < slots.Length ==> freeHint == i + 1
      ensures i == slots.Length ==> freeHint == old(freeHint)
    {
      ValidFull(slots[..], slots.Length);
      for k := freeHint to slots.Length
        invariant freeHint == old(freeHint)
        invariant forall x :: 0 <= x < k ==> slots[x].IsValid()
      {
        if !slots[k].IsValid() {
          freeHint := k + 1;
          LowestFreeFrom(slots[..], 0, k);
          return k;
        }
      }
      for k := 0 to freeHint
        invariant freeHint == old(freeHint)
      {
        if !slots[k].IsValid() {
          assert false;
        }
      }
      LowestFreeFrom(slots[..], 0, slots.Length);
      return slots.Length;
    }

    /** A handle resolves exactly when its slot is in use and its generation is that
        of the slot's latest allocation. */
    method Lookup(index: nat, generation: nat) returns (r: Result<CapSlot, CapError>)
      requires Valid()
      ensures r == LookupOf(index, generation)
      ensures r.Ok? <==> index < slots.Length && slots[index].IsValid() && GenOf(issued[index] - 1) == generation
    {
      if index >= slots.Length {
        return Err(InvalidHandle);
      }
      var slot := slots[index];
      if !slot.IsValid() {
        return Err(InvalidHandle);
      }
      if slot.generation != generation {
        return Err(StaleHandle);
      }
      return Ok(slot);
    }

    ghost function LookupOf(index: nat, generation: nat): (r: Result<CapSlot, CapError>)
      reads slots
      ensures r.Ok? ==> index < slots.Length && r.value == slots[index] && r.value.IsValid()
    {
      if index >= slots.Length || !slots[index].IsValid() then Err(InvalidHandle)
      else if slots[index].generation != generation then Err(StaleHandle)
      else Ok(slots[index])
    }

    /** Frees a slot whatever its generation; a free or absent slot is left alone. */
    method ForceInvalidate(index: nat)
      requires Valid()
      modifies this, slots
      ensures Valid() && issued == old(issued)
      ensures slots[..] == if index < slots.Length && old(slots[index]).IsValid()
                           then old(slots[..])[index := old(slots[index]).Invalidate()] else old(slots[..])
    {
      if index < slots.Length && slots[index].IsValid() {
        ValidChange(slots[..], slots[..][index := slots[index].Invalidate()], index, slots.Length);
        InvalidateCounts(slots[index], issued[index]);
        slots[index] := slots[index].Invalidate();
        count := count - 1;
        assert slots[..] == old(slots[..])[index := old(slots[index]).Invalidate()];
        if index < freeHint {
          freeHint := index;
        }
      }
    }

    /** Frees the slot of a current handle: from then on the handle is dead. */
    method Remove(index: nat, generation: nat) returns (r: Result<(), CapError>)
      requires Valid()
      modifies this, slots
      ensures Valid() && issued == old(issued)
      ensures r.Err? <==> old(LookupOf(index, generation)).Err?
      ensures r.Err? ==>
        && r.error == old(LookupOf(index, generation)).error && slots[..] == old(slots[..])
        && count == old(count)
      ensures r.Ok? ==>
        && slots[..] == old(slots[..])[index := old(slots[index]).Invalidate()] && count == old(count) - 1
        && LookupOf(index, generation) == Err(InvalidHandle)
    {
      if index >= slots.Length {
        return Err(InvalidHandle);
      }
      if !slots[index].IsValid() {
        return Err(InvalidHandle);
      }
      if slots[index].generation != generation {
        return Err(StaleHandle);
      }
      ValidChange(slots[..], slots[..][index := slots[index].Invalidate()], index, slots.Length);
      InvalidateCounts(slots[index], issued[index]);
      slots[index] := slots[index].Invalidate();
      count := count - 1;
      assert slots[..] == old(slots[..])[index := old(slots[index]).Invalidate()];
      if index < freeHint {
        freeHint := index;
      }
      return Ok(());
    }

    /** Replaces the rights of a live slot; nothing else changes. */
    method SetRights(index: nat, generation: nat, rights: CapRights)
      requires Valid()
      modifies slots
      ensures Valid()
      ensures slots[..] == if old(LookupOf(index, generation)).Ok?
        then old(slots[..])[index := old(slots[index]).(token := old(slots[index]).token.(rights := rights))]
        else old(slots[..])
    {
      if index < slots.Length && slots[index].IsValid() && slots[index].generation == generation {
        slots[index] := slots[index].(token := slots[index].token.(rights := rights));
        ValidChange(old(slots[..]), slots[..], index, slots.Length);
        assert slots[..] ==
          old(slots[..])[index := old(slots[index]).(token := old(slots[index]).token.(rights := rights))];
      }
    }
  }
}
