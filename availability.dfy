/**
 * The blocked-slot list kept in `data/availability.json`: (date, time, table)
 * triples, in storage order. Both the admin grid and the guest form test
 * membership in it; the reservation route appends to it and filters it.
 */
module Availability {
  import opened Seqs

  datatype BlockedSlot = BlockedSlot(date: string, time: string, tableId: string)

  /**
   * `slots.some(slot => slot.date === date && slot.time === time && slot.tableId === tableId)`.
   */
  predicate IsBlocked(slots: seq<BlockedSlot>, date: string, time: string, tableId: string)
    ensures IsBlocked(slots, date, time, tableId) <==>
      exists i :: 0 <= i < |slots| && slots[i].date == date && slots[i].time == time && slots[i].tableId == tableId
  {
    BlockedSlot(date, time, tableId) in slots
  }

  /** Does not occur in `toRemove` (the `!slotsToRemove.some(...)` test of the route's filter). */
  function NotIn(toRemove: seq<BlockedSlot>): BlockedSlot -> bool {
    slot => slot !in toRemove
  }

  /**
   * `slots.filter(slot => !toRemove.some(r => r matches slot))`: every slot
   * whose triple occurs in `toRemove` goes, however often it occurs; the
   * others stay, in order.
   */
  function RemoveMatching(slots: seq<BlockedSlot>, toRemove: seq<BlockedSlot>): (r: seq<BlockedSlot>)
    ensures forall s :: s in r <==> s in slots && s !in toRemove
    ensures forall s :: multiset(r)[s] == if s in toRemove then 0 else multiset(slots)[s]
    ensures IsSubsequence(r, slots)
  {
    FilterIsSubsequence(NotIn(toRemove), slots);
    FilterMultiset(NotIn(toRemove), slots);
    Filter(NotIn(toRemove), slots)
  }

  /** Removing a list from the end of a list it was appended to leaves the original, minus those triples. */
  lemma RemoveAppended(slots: seq<BlockedSlot>, added: seq<BlockedSlot>)
    ensures RemoveMatching(slots + added, added) == RemoveMatching(slots, added)
  {
    FilterAppend(NotIn(added), slots, added);
    FilterDropsAll(NotIn(added), added);
  }

  /** Removing triples the list does not hold changes nothing. */
  lemma RemoveAbsent(slots: seq<BlockedSlot>, toRemove: seq<BlockedSlot>)
    requires forall s :: s in toRemove ==> s !in slots
    ensures RemoveMatching(slots, toRemove) == slots
  {
    FilterKeepsAll(NotIn(toRemove), slots);
  }
}
