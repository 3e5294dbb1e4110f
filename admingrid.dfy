/**
 * The admin availability grid (src/app/admin/page.tsx): a cell is blocked
 * when its (date, time, table) triple is in the list, and a click toggles
 * it, computing the new list that the page then sends to the server.
 */
module AdminGrid {
  import opened Seqs
  import opened Availability

  /**
   * `toggleBlock`: a blocked triple is filtered out, every copy of it; an
   * unblocked one is appended at the end.
   */
  function ToggleBlock(slots: seq<BlockedSlot>, date: string, time: string, tableId: string): (r: seq<BlockedSlot>)
    ensures IsBlocked(slots, date, time, tableId) ==>
      && (forall s :: s in r <==> s in slots && s != BlockedSlot(date, time, tableId))
      && (forall s :: s != BlockedSlot(date, time, tableId) ==> multiset(r)[s] == multiset(slots)[s])
      && IsSubsequence(r, slots)
    ensures !IsBlocked(slots, date, time, tableId) ==> r == slots + [BlockedSlot(date, time, tableId)]
  {
    var cell := BlockedSlot(date, time, tableId);
    if IsBlocked(slots, date, time, tableId) then RemoveMatching(slots, [cell]) else slots + [cell]
  }

  /** After a toggle the clicked cell has flipped and every other cell reads as before. */
  lemma ToggleFlipsOnlyThatCell(slots: seq<BlockedSlot>, date: string, time: string, tableId: string)
    ensures IsBlocked(ToggleBlock(slots, date, time, tableId), date, time, tableId) == !IsBlocked(slots, date, time, tableId)
    ensures forall d, t, tb :: (d, t, tb) != (date, time, tableId) ==>
      IsBlocked(ToggleBlock(slots, date, time, tableId), d, t, tb) == IsBlocked(slots, d, t, tb)
  {
    var r := ToggleBlock(slots, date, time, tableId);
    if !IsBlocked(slots, date, time, tableId) {
      assert r[|slots|] == BlockedSlot(date, time, tableId);
    }
  }

  /** Blocking a free cell and unblocking it again gives back exactly the list it started from. */
  lemma ToggleTwiceRestores(slots: seq<BlockedSlot>, date: string, time: string, tableId: string)
    requires !IsBlocked(slots, date, time, tableId)
    ensures ToggleBlock(ToggleBlock(slots, date, time, tableId), date, time, tableId) == slots
  {
    var cell := BlockedSlot(date, time, tableId);
    var once := slots + [cell];
    assert once[|slots|] == cell;
    RemoveAppended(slots, [cell]);
    RemoveAbsent(slots, [cell]);
  }
}
