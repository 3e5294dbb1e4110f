/**
 * Worked examples: a 19:00 dinner on S1, a request that overlaps it, one
 * that starts when it ends, and the confirm and cancel of the second booking.
 */
module Scenarios {
  import opened Wrappers
  import opened TimeOfDay
  import opened Availability
  import opened Reservations

  function Dinner(id: string, time: string, status: Status): Reservation {
    Reservation(id, "2025-06-01", time, "S1", 2, "Ada", "Rossi", "3330000000",
                "cena", GetDuration("cena"), "", status, "2025-05-30T10:00:00.000Z")
  }

  // The labels the examples use, one lemma each to keep the string arithmetic small.
  lemma Label1900() ensures FormatTime(19 * 60) == "19:00" { }
  lemma Label2030() ensures FormatTime(20 * 60 + 30) == "20:30" { }
  lemma Label2100() ensures FormatTime(21 * 60) == "21:00" { }
  lemma Label2130() ensures FormatTime(21 * 60 + 30) == "21:30" { }
  lemma Label2200() ensures FormatTime(22 * 60) == "22:00" { }
  lemma Label2230() ensures FormatTime(22 * 60 + 30) == "22:30" { }

  /** The start times the examples use, read back. */
  lemma Reads1900() ensures ParseTime("19:00") == Some(19 * 60) { Label1900(); ParseFormat(19 * 60); }
  lemma Reads2030() ensures ParseTime("20:30") == Some(20 * 60 + 30) { Label2030(); ParseFormat(20 * 60 + 30); }
  lemma Reads2100() ensures ParseTime("21:00") == Some(21 * 60) { Label2100(); ParseFormat(21 * 60); }

  /** With a single existing reservation the report depends only on whether that one conflicts. */
  lemma SingleReservationReport(res: Reservation, date: string, time: string, duration: nat, tableId: string)
    ensures Conflicts(res, date, ParseTime(time), duration, tableId) ==>
      OverlapReport([res], date, time, duration, tableId) == Overlap(res.time, res.time)
    ensures !Conflicts(res, date, ParseTime(time), duration, tableId) ==>
      OverlapReport([res], date, time, duration, tableId) == NoOverlap
  {
    assert [res][0] == res;
  }

  // The lemmas below take the example reservation as a parameter fixed by
  // their requires, so that its literal fields are unfolded once, at that
  // equation, rather than wherever `Dinner(...)` would appear in a contract.

  /** The 19:00 dinner blocks an aperitif at 20:30. */
  lemma DinnerBlocksAperitif(dinner: Reservation)
    requires dinner == Dinner("RES-1", "19:00", Confirmed)
    ensures Conflicts(dinner, "2025-06-01", ParseTime("20:30"), GetDuration("aperitivo"), "S1")
  {
    Reads1900();
    Reads2030();
  }

  /** The 19:00 dinner does not block a dinner at 21:00. */
  lemma DinnerLeavesNextSitting(dinner: Reservation)
    requires dinner == Dinner("RES-1", "19:00", Confirmed)
    ensures !Conflicts(dinner, "2025-06-01", ParseTime("21:00"), GetDuration("cena"), "S1")
  {
    Reads1900();
    Reads2100();
  }

  /** An aperitif at 20:30 meets the 19:00 dinner (which runs to 21:00): the warning names 19:00. */
  lemma OverlappingRequestIsReported(dinner: Reservation)
    requires dinner == Dinner("RES-1", "19:00", Confirmed)
    ensures OverlapReport([dinner], "2025-06-01", "20:30", GetDuration("aperitivo"), "S1") == Overlap("19:00", "19:00")
  {
    DinnerBlocksAperitif(dinner);
    SingleReservationReport(dinner, "2025-06-01", "20:30", GetDuration("aperitivo"), "S1");
  }

  /** A request at 21:00, when the dinner ends, does not conflict. */
  lemma TouchingRequestIsFree(dinner: Reservation)
    requires dinner == Dinner("RES-1", "19:00", Confirmed)
    ensures OverlapReport([dinner], "2025-06-01", "21:00", GetDuration("cena"), "S1") == NoOverlap
  {
    DinnerLeavesNextSitting(dinner);
    SingleReservationReport(dinner, "2025-06-01", "21:00", GetDuration("cena"), "S1");
  }

  /** A two-hour span from a well-formed start occupies four slots, half an hour apart. */
  lemma TwoHourSlots(sp: Span, start: nat)
    requires sp.start == Some(start) && sp.duration == 120
    ensures SpanSlots(sp) == [
      BlockedSlot(sp.date, FormatTime(start), sp.tableId), BlockedSlot(sp.date, FormatTime(start + 30), sp.tableId),
      BlockedSlot(sp.date, FormatTime(start + 60), sp.tableId), BlockedSlot(sp.date, FormatTime(start + 90), sp.tableId)]
  {
    var slots := SpanSlots(sp);
    assert |slots| == 4;
    assert slots[0] == SlotAt(sp, 0);
    assert slots[1] == SlotAt(sp, 30);
    assert slots[2] == SlotAt(sp, 60);
    assert slots[3] == SlotAt(sp, 90);
  }

  /** Confirming a two-hour dinner at 21:00 blocks 21:00, 21:30, 22:00 and 22:30 on its table and date. */
  lemma ConfirmedDinnerSlots(dinner: Reservation)
    requires dinner == Dinner("RES-2", "21:00", Pending)
    ensures ReservationSlots(dinner) == [
      BlockedSlot("2025-06-01", "21:00", "S1"), BlockedSlot("2025-06-01", "21:30", "S1"),
      BlockedSlot("2025-06-01", "22:00", "S1"), BlockedSlot("2025-06-01", "22:30", "S1")]
  {
    Reads2100();
    TwoHourSlots(SpanOf(dinner), 21 * 60);
    Label2100();
    Label2130();
    Label2200();
    Label2230();
  }

  /** Cancelling it again frees all four slots when none was blocked before. */
  lemma CancelledDinnerFreesSlots(blocked: seq<BlockedSlot>)
    requires forall s :: s in blocked ==> s.tableId != "S1"
    ensures var r := Dinner("RES-2", "21:00", Confirmed);
      && ReleaseSlots(ConfirmSlots(blocked, r), r) == blocked
      && !IsBlocked(ReleaseSlots(ConfirmSlots(blocked, r), r), "2025-06-01", "21:00", "S1")
      && !IsBlocked(ReleaseSlots(ConfirmSlots(blocked, r), r), "2025-06-01", "21:30", "S1")
      && !IsBlocked(ReleaseSlots(ConfirmSlots(blocked, r), r), "2025-06-01", "22:00", "S1")
      && !IsBlocked(ReleaseSlots(ConfirmSlots(blocked, r), r), "2025-06-01", "22:30", "S1")
  {
    var r := Dinner("RES-2", "21:00", Confirmed);
    ConfirmedDinnerSlots(Dinner("RES-2", "21:00", Pending));
    assert ReservationSlots(r) == ReservationSlots(Dinner("RES-2", "21:00", Pending));
    ReleaseUndoesConfirm(blocked, r);
  }
}
