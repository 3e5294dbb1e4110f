/**
 * The stateful part of the reservation route
 * (src/app/api/reservations/route.ts): the `checkOverlap` scan and the
 * 30-minute slot loop as methods, and the two JSON files the route reads
 * and rewrites (`data/reservations.json`, `data/availability.json`) as the
 * fields of one store whose `Post` and `Put` are the POST and PUT handlers.
 */
module ReservationApi {
  import opened Wrappers
  import opened Seqs
  import opened TimeOfDay
  import opened Availability
  import opened Reservations

  /**
   * `checkOverlap`: scan the existing reservations in order, skip inactive
   * ones and those on another table or date, and stop at the first whose
   * interval meets the new one, reporting its start time.
   */
  method CheckOverlap(newDate: string, newStartTime: string, newDuration: nat,
                      existing: seq<Reservation>, tableId: string) returns (result: OverlapResult)
    ensures result == OverlapReport(existing, newDate, newStartTime, newDuration, tableId)
    ensures result.NoOverlap? <==>
      forall j :: 0 <= j < |existing| ==> !Conflicts(existing[j], newDate, ParseTime(newStartTime), newDuration, tableId)
  {
    var newStart := ParseTime(newStartTime);
    ghost var p := ConflictsWith(newDate, newStart, newDuration, tableId);
    var i := 0;
    while i < |existing|
      invariant 0 <= i <= |existing|
      invariant FirstIndexFrom(p, existing, i) == FirstIndexFrom(p, existing, 0)
    {
      var res := existing[i];
      if IsInactive(res.status) {
        assert !p(res);
        i := i + 1;
        continue;
      }
      if res.tableId != tableId || res.date != newDate {
        assert !p(res);
        i := i + 1;
        continue;
      }
      var resStart := ParseTime(res.time);
      assert p(res) <==> (newStart.Some? && resStart.Some? &&
        IntervalsOverlap(newStart.value, newStart.value + newDuration, resStart.value, resStart.value + res.duration));
      if newStart.Some? && resStart.Some? &&
         IntervalsOverlap(newStart.value, newStart.value + newDuration, resStart.value, resStart.value + res.duration)
      {
        return Overlap(res.time, res.time);
      }
      i := i + 1;
    }
    return NoOverlap;
  }

  /**
   * The slot loop of `confirm`, `cancel` and `complete`:
   * `for (offset = 0; offset < durationMinutes; offset += 30)` pushing the
   * zero-padded label of `start + offset` on the reservation's date and table.
   */
  method GenerateSlots(r: Reservation) returns (slots: seq<BlockedSlot>)
    ensures slots == ReservationSlots(r)
    ensures |slots| == SlotCount(r.duration)
  {
    var start := ParseTime(r.time);
    slots := [];
    var offset := 0;
    while offset < r.duration
      invariant offset == 30 * |slots|
      invariant |slots| == 0 || 30 * (|slots| - 1) < r.duration
      invariant forall k :: 0 <= k < |slots| ==> slots[k] == SlotAt(SpanOf(r), 30 * k)
    {
      var slotTime := SlotTime(start, offset);
      slots := slots + [BlockedSlot(r.date, slotTime, r.tableId)];
      offset := offset + 30;
    }
  }

  /** The POST handler's replies. */
  datatype PostResponse =
    | BadRequest                      // 400, required fields missing
    | Warning(availableUntil: string) // 200 with `warning: true`, nothing stored
    | Created(reservation: Reservation)

  /** The PUT handler's replies. */
  datatype PutResponse = NotFound | Updated(reservation: Reservation)

  /** The contents of the two data files the route reads and writes back. */
  class Store {
    var reservations: seq<Reservation>
    var blockedSlots: seq<BlockedSlot>

    constructor(reservations: seq<Reservation>, blockedSlots: seq<BlockedSlot>)
      ensures this.reservations == reservations && this.blockedSlots == blockedSlots
    {
      this.reservations := reservations;
      this.blockedSlots := blockedSlots;
    }

    /**
     * POST: reject a request missing a required field; warn, storing
     * nothing, when the table is taken and the guest has not confirmed the
     * overlap; otherwise append one pending record. The blocked slots are
     * never touched.
     */
    method Post(body: ReservationRequest, id: string, timestamp: string) returns (response: PostResponse)
      modifies this
      ensures blockedSlots == old(blockedSlots)
      ensures MissingRequired(body) ==> response == BadRequest && reservations == old(reservations)
      ensures !MissingRequired(body) ==>
        var report := OverlapReport(old(reservations), body.date, body.time, GetDuration(body.serviceType), body.tableId);
        if report.Overlap? && !body.confirmOverlap then
          response == Warning(report.availableUntil) && reservations == old(reservations)
        else
          response == Created(NewReservation(body, id, timestamp))
          && reservations == old(reservations) + [NewReservation(body, id, timestamp)]
      ensures StandardDurations(old(reservations)) ==> StandardDurations(reservations)
      ensures UniqueIds(old(reservations)) && FindReservation(old(reservations), id).None? ==> UniqueIds(reservations)
    {
      if MissingRequired(body) {
        return BadRequest;
      }
      var duration := GetDuration(body.serviceType);
      var overlapCheck := CheckOverlap(body.date, body.time, duration, reservations, body.tableId);
      if overlapCheck.Overlap? && !body.confirmOverlap {
        return Warning(overlapCheck.availableUntil);
      }
      var newReservation := Reservation(id, body.date, body.time, body.tableId, body.guests,
                                        body.firstName, body.lastName, body.phone, body.serviceType,
                                        duration, body.notes.GetOr(""), Pending, timestamp);
      AppendKeepsInvariants(reservations, newReservation);
      reservations := reservations + [newReservation];
      response := Created(newReservation);
    }

    /**
     * PUT: find the reservation by id (404 when there is none); apply an
     * explicit status, then let the action override it; on confirm block
     * the reservation's slots, on cancel or complete release them. Only the
     * matched record changes.
     */
    method Put(reservationId: string, status: Option<Status>, action: Action) returns (response: PutResponse)
      modifies this
      ensures FindReservation(old(reservations), reservationId).None? ==>
        response == NotFound && reservations == old(reservations) && blockedSlots == old(blockedSlots)
      ensures FindReservation(old(reservations), reservationId).Some? ==>
        var k := FindReservation(old(reservations), reservationId).value;
        var updated := UpdatedReservation(old(reservations)[k], status, action);
        && response == Updated(updated)
        && reservations == old(reservations)[k := updated]
        && blockedSlots == SlotsAfterAction(old(blockedSlots), old(reservations)[k], action)
      ensures StandardDurations(old(reservations)) ==> StandardDurations(reservations)
      ensures UniqueIds(old(reservations)) ==> UniqueIds(reservations)
    {
      var found := FindReservation(reservations, reservationId);
      if found.None? {
        return NotFound;
      }
      var k := found.value;
      var reservation := reservations[k];
      ghost var span := SpanOf(reservation);
      if status.Some? {
        reservation := reservation.(status := status.value);
      }
      if action == Confirm {
        reservation := reservation.(status := Confirmed);
        assert SpanOf(reservation) == span;
        var slots := GenerateSlots(reservation);
        blockedSlots := blockedSlots + slots;
      }
      if action == Cancel {
        reservation := reservation.(status := Cancelled);
        assert SpanOf(reservation) == span;
        var slotsToRemove := GenerateSlots(reservation);
        blockedSlots := RemoveMatching(blockedSlots, slotsToRemove);
      }
      if action == Complete {
        reservation := reservation.(status := Completed);
        assert SpanOf(reservation) == span;
        var slotsToRemove := GenerateSlots(reservation);
        blockedSlots := RemoveMatching(blockedSlots, slotsToRemove);
      }
      assert reservation == UpdatedReservation(reservations[k], status, action);
      ReplaceKeepsInvariants(reservations, k, reservation);
      reservations := reservations[k := reservation];
      response := Updated(reservation);
    }
  }
}
