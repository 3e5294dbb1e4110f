/**
 * The pure part of the reservation route (src/app/api/reservations/route.ts):
 * the records it stores, the service durations, the interval test of the
 * overlap check, the creation of a pending record, the status a PUT writes
 * and the 30-minute slots a reservation occupies.
 *
 * Durations are whole minutes (the route stores hours, 1.5 or 2).
 */
module Reservations {
  import opened Wrappers
  import opened Seqs
  import opened TimeOfDay
  import opened Availability

  datatype Status = Pending | Confirmed | Rejected | Cancelled | Completed

  /** The statuses the overlap check skips. */
  predicate IsInactive(s: Status) {
    s == Cancelled || s == Rejected || s == Completed
  }

  datatype Reservation = Reservation(
    id: string,
    date: string,
    time: string,
    tableId: string,
    guests: int,
    firstName: string,
    lastName: string,
    phone: string,
    serviceType: string,
    duration: nat,
    notes: string,
    status: Status,
    timestamp: string)

  /** `getDuration`, in minutes: lunch and dinner 2 h, aperitif 1.5 h, anything else 2 h. */
  function GetDuration(serviceType: string): (minutes: nat)
    ensures minutes == (if serviceType == "aperitivo" then 90 else 120)
    ensures minutes > 0 && minutes % 30 == 0
  {
    match serviceType
    case "pranzo" => 120
    case "aperitivo" => 90
    case "cena" => 120
    case _ => 120
  }

  // ----- Overlap -----

  /** The half-open interval test `newStart < resEnd && newEnd > resStart`. */
  predicate IntervalsOverlap(aStart: int, aEnd: int, bStart: int, bEnd: int) {
    aStart < bEnd && aEnd > bStart
  }

  lemma OverlapSymmetric(aStart: int, aEnd: int, bStart: int, bEnd: int)
    ensures IntervalsOverlap(aStart, aEnd, bStart, bEnd) <==> IntervalsOverlap(bStart, bEnd, aStart, aEnd)
  {
  }

  /** Minute `m` lies in the half-open interval of `duration` minutes from `start`. */
  predicate Covers(start: int, duration: nat, m: int) {
    start <= m < start + duration
  }

  /**
   * For non-empty intervals the test says exactly that the two share a
   * minute: `[a, a + d)` and `[b, b + e)` both contain some `m`.
   */
  lemma OverlapMeansSharedMinute(a: int, d: nat, b: int, e: nat)
    requires d > 0 && e > 0
    ensures IntervalsOverlap(a, a + d, b, b + e) <==> exists m :: Covers(a, d, m) && Covers(b, e, m)
  {
    if IntervalsOverlap(a, a + d, b, b + e) {
      var m := if a < b then b else a;
      assert Covers(a, d, m) && Covers(b, e, m);
    }
  }

  /** A booking that starts when another ends does not conflict with it, nor one that ends when it starts. */
  lemma BackToBackDoesNotOverlap(start: int, d: nat, e: nat)
    ensures !IntervalsOverlap(start + d, start + d + e, start, start + d)
    ensures !IntervalsOverlap(start, start + d, start + d, start + d + e)
  {
  }

  /** One shared minute is enough for a conflict. */
  lemma OneMinuteOverlaps(start: int, d: nat, e: nat)
    requires d > 0 && e > 0
    ensures IntervalsOverlap(start + d - 1, start + d - 1 + e, start, start + d)
  {
  }

  /**
   * Whether the existing reservation `res` blocks a new booking of
   * `newDuration` minutes from `newStart` on `tableId` and `newDate`: it is
   * still active, on the same table and date, and its interval meets the
   * new one. A time that does not parse (`NaN` in the source) makes every
   * comparison false, so it conflicts with nothing.
   */
  predicate Conflicts(res: Reservation, newDate: string, newStart: Option<nat>, newDuration: nat, tableId: string) {
    && !IsInactive(res.status)
    && res.tableId == tableId
    && res.date == newDate
    && newStart.Some?
    && ParseTime(res.time).Some?
    && IntervalsOverlap(newStart.value, newStart.value + newDuration,
                        ParseTime(res.time).value, ParseTime(res.time).value + res.duration)
  }

  function ConflictsWith(newDate: string, newStart: Option<nat>, newDuration: nat, tableId: string): Reservation -> bool {
    res => Conflicts(res, newDate, newStart, newDuration, tableId)
  }

  /** The position of the first reservation, in list order, that conflicts with the new booking. */
  function FirstConflict(existing: seq<Reservation>, newDate: string, newStartTime: string, newDuration: nat, tableId: string): (k: Option<nat>)
    ensures k.Some? ==> (k.value < |existing|
      && Conflicts(existing[k.value], newDate, ParseTime(newStartTime), newDuration, tableId)
      && forall j :: 0 <= j < k.value ==> !Conflicts(existing[j], newDate, ParseTime(newStartTime), newDuration, tableId))
    ensures k.None? <==> forall j :: 0 <= j < |existing| ==> !Conflicts(existing[j], newDate, ParseTime(newStartTime), newDuration, tableId)
  {
    FirstIndex(ConflictsWith(newDate, ParseTime(newStartTime), newDuration, tableId), existing)
  }

  /** What `checkOverlap` returns: both times it reports are the start of the blocking reservation. */
  datatype OverlapResult = NoOverlap | Overlap(nextReservationTime: string, availableUntil: string)

  function OverlapReport(existing: seq<Reservation>, newDate: string, newStartTime: string, newDuration: nat, tableId: string): OverlapResult {
    match FirstConflict(existing, newDate, newStartTime, newDuration, tableId)
    case None => NoOverlap
    case Some(k) => Overlap(existing[k].time, existing[k].time)
  }

  // ----- Creation (POST) -----

  /**
   * A POST body. Text fields hold `""` when absent; `guests` holds 0 when
   * absent; `notes` is `None` when absent.
   */
  datatype ReservationRequest = ReservationRequest(
    date: string,
    time: string,
    tableId: string,
    guests: int,
    firstName: string,
    lastName: string,
    phone: string,
    serviceType: string,
    notes: Option<string>,
    confirmOverlap: bool)

  /** Some required field is missing or falsy. */
  predicate MissingRequired(b: ReservationRequest) {
    || b.date == "" || b.time == "" || b.tableId == "" || b.guests == 0
    || b.firstName == "" || b.lastName == "" || b.phone == "" || b.serviceType == ""
  }

  /** The record POST appends; `id` and `timestamp` are generated by the caller. */
  function NewReservation(b: ReservationRequest, id: string, timestamp: string): Reservation {
    Reservation(id, b.date, b.time, b.tableId, b.guests, b.firstName, b.lastName, b.phone,
                b.serviceType, GetDuration(b.serviceType), b.notes.GetOr(""), Pending, timestamp)
  }

  /**
   * The created record keeps every field of the request, starts pending,
   * gets its service's duration and empty notes when none were given.
   */
  lemma NewReservationFromRequest(b: ReservationRequest, id: string, timestamp: string)
    ensures var r := NewReservation(b, id, timestamp);
      && r.id == id && r.timestamp == timestamp && r.status == Pending
      && r.date == b.date && r.time == b.time && r.tableId == b.tableId && r.guests == b.guests
      && r.firstName == b.firstName && r.lastName == b.lastName && r.phone == b.phone
      && r.serviceType == b.serviceType
      && r.duration == GetDuration(b.serviceType)
      && r.notes == (if b.notes.Some? then b.notes.value else "")
  {
  }

  /** `data.reservations.find(r => r.id === id)`, as an index. */
  function FindReservation(rs: seq<Reservation>, id: string): (k: Option<nat>)
    ensures k.Some? ==> k.value < |rs| && rs[k.value].id == id && forall j :: 0 <= j < k.value ==> rs[j].id != id
    ensures k.None? <==> forall j :: 0 <= j < |rs| ==> rs[j].id != id
  {
    FirstIndex((r: Reservation) => r.id == id, rs)
  }

  /** A record appended under an id no earlier record carries is the one a later lookup finds. */
  lemma FindAppended(rs: seq<Reservation>, r: Reservation)
    requires forall j :: 0 <= j < |rs| ==> rs[j].id != r.id
    ensures FindReservation(rs + [r], r.id) == Some(|rs|)
  {
    var all := rs + [r];
    assert all[|rs|] == r;
    assert forall j :: 0 <= j < |rs| ==> all[j] == rs[j];
  }

  /** Every record carries its service's duration, as POST stores it. */
  predicate StandardDurations(rs: seq<Reservation>) {
    forall j :: 0 <= j < |rs| ==> rs[j].duration == GetDuration(rs[j].serviceType)
  }

  /** No two records share an id, so a lookup by id finds the only match. */
  predicate UniqueIds(rs: seq<Reservation>) {
    forall i, j :: 0 <= i < j < |rs| ==> rs[i].id != rs[j].id
  }

  /** With unique ids, looking up a record's id finds that record. */
  lemma FindUnique(rs: seq<Reservation>, i: nat)
    requires UniqueIds(rs) && i < |rs|
    ensures FindReservation(rs, rs[i].id) == Some(i)
  {
  }

  /**
   * Appending a freshly created record keeps every record's duration
   * standard, and keeps ids unique when the new id is not yet in use.
   */
  lemma AppendKeepsInvariants(rs: seq<Reservation>, r: Reservation)
    requires r.duration == GetDuration(r.serviceType)
    ensures StandardDurations(rs) ==> StandardDurations(rs + [r])
    ensures UniqueIds(rs) && FindReservation(rs, r.id).None? ==> UniqueIds(rs + [r])
  {
    var all := rs + [r];
    assert forall j :: 0 <= j < |rs| ==> all[j] == rs[j];
    assert all[|rs|] == r;
  }

  // ----- Status update (PUT) -----

  /** The `action` field of a PUT; any other value does nothing. */
  datatype Action = NoAction | Confirm | Cancel | Complete

  /**
   * The status PUT writes: an explicit `status` first, then `action`
   * overrides it. The current status is never consulted except when
   * neither is given.
   */
  function UpdatedStatus(current: Status, status: Option<Status>, action: Action): (s: Status)
    ensures action == Confirm ==> s == Confirmed
    ensures action == Cancel ==> s == Cancelled
    ensures action == Complete ==> s == Completed
    ensures action == NoAction && status.Some? ==> s == status.value
    ensures action == NoAction && status.None? ==> s == current
  {
    var afterStatus := if status.Some? then status.value else current;
    match action
    case Confirm => Confirmed
    case Cancel => Cancelled
    case Complete => Completed
    case NoAction => afterStatus
  }

  /**
   * No transition is refused: whatever the current status, a given
   * `status` or `action` produces the same new status.
   */
  lemma UpdateIgnoresCurrentStatus(s1: Status, s2: Status, status: Option<Status>, action: Action)
    requires status.Some? || action != NoAction
    ensures UpdatedStatus(s1, status, action) == UpdatedStatus(s2, status, action)
  {
  }

  // ----- Slots a reservation occupies -----

  /**
   * The label of the slot `offset` minutes into a reservation that starts at
   * `start`. With an unparsable start the source computes `NaN` hours and
   * minutes, which print as "NaN".
   */
  function SlotTime(start: Option<nat>, offset: nat): string {
    match start
    case Some(m) => FormatTime(m + offset)
    case None => "NaN:NaN"
  }

  /** The fields of a reservation the slot generator reads, its start time already parsed. */
  datatype Span = Span(date: string, start: Option<nat>, tableId: string, duration: nat)

  function SpanOf(r: Reservation): Span {
    Span(r.date, ParseTime(r.time), r.tableId, r.duration)
  }

  /** The slot `offset` minutes into the span, on its date and table. */
  function SlotAt(sp: Span, offset: nat): BlockedSlot {
    BlockedSlot(sp.date, SlotTime(sp.start, offset), sp.tableId)
  }

  /** How many 30-minute offsets lie in `[0, duration)`. */
  function SlotCount(duration: nat): (n: nat)
    ensures duration == 0 ==> n == 0
    ensures duration > 0 ==> 30 * (n - 1) < duration <= 30 * n
  {
    (duration + 29) / 30
  }

  /**
   * The slots `confirm` blocks and `cancel`/`complete` release: one at every
   * offset 0, 30, 60, ... below the duration, in that order.
   */
  function SpanSlots(sp: Span): (slots: seq<BlockedSlot>)
    ensures |slots| == SlotCount(sp.duration)
    ensures forall k :: 0 <= k < |slots| ==> slots[k] == SlotAt(sp, 30 * k)
  {
    seq(SlotCount(sp.duration), (k: int) requires 0 <= k => SlotAt(sp, 30 * k))
  }

  function ReservationSlots(r: Reservation): seq<BlockedSlot> {
    SpanSlots(SpanOf(r))
  }

  /** A slot is generated exactly when it sits at a multiple of 30 minutes below the duration. */
  lemma SpanSlotsMembership(sp: Span, s: BlockedSlot)
    ensures s in SpanSlots(sp) <==> exists k: nat :: 30 * k < sp.duration && s == SlotAt(sp, 30 * k)
  {
    var slots := SpanSlots(sp);
    if k: nat :| 30 * k < sp.duration && s == SlotAt(sp, 30 * k) {
      assert slots[k] == s;
    }
  }

  /** For a well-formed start time the label `start + offset` reads back as that minute. */
  lemma SlotAtReadsBack(sp: Span, start: nat, offset: nat)
    requires sp.start == Some(start)
    ensures ParseTime(SlotAt(sp, offset).time) == Some(start + offset)
  {
    var t := SlotAt(sp, offset).time;
    assert t == FormatTime(start + offset);
    ParseFormat(start + offset);
  }

  /**
   * For a well-formed start time the k-th slot reads back as `start + 30 k`:
   * the labels are strictly increasing in time and pairwise distinct.
   */
  lemma SpanSlotsIncreasing(sp: Span, start: nat)
    requires sp.start == Some(start)
    ensures forall k :: 0 <= k < |SpanSlots(sp)| ==> ParseTime(SpanSlots(sp)[k].time) == Some(start + 30 * k)
    ensures forall i, j :: 0 <= i < j < |SpanSlots(sp)| ==>
      ParseTime(SpanSlots(sp)[i].time).value < ParseTime(SpanSlots(sp)[j].time).value
    ensures forall i, j :: 0 <= i < j < |SpanSlots(sp)| ==> SpanSlots(sp)[i] != SpanSlots(sp)[j]
  {
    var slots := SpanSlots(sp);
    forall k | 0 <= k < |slots| ensures ParseTime(slots[k].time) == Some(start + 30 * k) {
      SlotAtReadsBack(sp, start, 30 * k);
    }
  }


  /** A stored lunch or dinner occupies 4 slots, an aperitif 3. */
  lemma ServiceSlotCount(r: Reservation)
    requires r.duration == GetDuration(r.serviceType)
    ensures |ReservationSlots(r)| == if r.serviceType == "aperitivo" then 3 else 4
  {
  }

  /** What `confirm` leaves in the blocked-slot list: the old list with the generated slots appended, duplicates and all. */
  function ConfirmSlots(blocked: seq<BlockedSlot>, r: Reservation): seq<BlockedSlot> {
    blocked + ReservationSlots(r)
  }

  /** What `cancel` and `complete` leave: every slot matching a generated one removed. */
  function ReleaseSlots(blocked: seq<BlockedSlot>, r: Reservation): seq<BlockedSlot> {
    RemoveMatching(blocked, ReservationSlots(r))
  }

  /** After confirm every slot of the reservation is blocked and nothing blocked before is lost or moved. */
  lemma ConfirmBlocksAll(blocked: seq<BlockedSlot>, r: Reservation)
    ensures forall s :: s in ReservationSlots(r) ==> s in ConfirmSlots(blocked, r)
    ensures ConfirmSlots(blocked, r)[..|blocked|] == blocked
    ensures |ConfirmSlots(blocked, r)| == |blocked| + |ReservationSlots(r)|
  {
  }

  /** After cancel or complete no slot of the reservation is blocked, and every other slot stays, in order. */
  lemma ReleaseFreesAll(blocked: seq<BlockedSlot>, r: Reservation)
    ensures forall s :: s in ReservationSlots(r) ==> s !in ReleaseSlots(blocked, r)
    ensures forall s :: s in blocked && s !in ReservationSlots(r) ==> s in ReleaseSlots(blocked, r)
    ensures IsSubsequence(ReleaseSlots(blocked, r), blocked)
  {
  }

  /** Confirm then cancel (or complete) of the same reservation on a list holding none of its slots restores the list. */
  lemma ReleaseUndoesConfirm(blocked: seq<BlockedSlot>, r: Reservation)
    requires forall s :: s in ReservationSlots(r) ==> s !in blocked
    ensures ReleaseSlots(ConfirmSlots(blocked, r), r) == blocked
  {
    RemoveAppended(blocked, ReservationSlots(r));
    RemoveAbsent(blocked, ReservationSlots(r));
  }

  /** Confirming twice blocks the first slot twice: the route does not deduplicate. */
  lemma ConfirmTwiceDuplicates(blocked: seq<BlockedSlot>, r: Reservation)
    requires r.duration > 0
    ensures var twice := ConfirmSlots(ConfirmSlots(blocked, r), r);
      twice[|blocked|] == twice[|blocked| + |ReservationSlots(r)|] == SlotAt(SpanOf(r), 0)
  {
  }

  /** Cancel also releases a matching slot the admin blocked by hand: a blocked slot records no owner. */
  lemma ReleaseDropsManualBlock(blocked: seq<BlockedSlot>, r: Reservation)
    requires r.duration > 0
    ensures ReleaseSlots(blocked + [SlotAt(SpanOf(r), 0)], r) == ReleaseSlots(blocked, r)
  {
    var first := SlotAt(SpanOf(r), 0);
    assert ReservationSlots(r)[0] == first;
    FilterAppend(NotIn(ReservationSlots(r)), blocked, [first]);
  }

  /**
   * The blocked-slot list after a PUT with `action` on reservation `r`:
   * confirm appends its slots, cancel and complete release them, no action
   * leaves the list alone.
   */
  function SlotsAfterAction(blocked: seq<BlockedSlot>, r: Reservation, action: Action): (after: seq<BlockedSlot>)
    ensures action == Confirm ==>
      |after| >= |blocked| && after[..|blocked|] == blocked && after[|blocked|..] == ReservationSlots(r)
    ensures (action == Cancel || action == Complete) ==>
      forall s :: s in after <==> s in blocked && s !in ReservationSlots(r)
    ensures action == NoAction ==> after == blocked
  {
    match action
    case Confirm => ConfirmSlots(blocked, r)
    case Cancel => ReleaseSlots(blocked, r)
    case Complete => ReleaseSlots(blocked, r)
    case NoAction => blocked
  }

  /** Replacing a record by one with the same id, service and duration keeps both invariants. */
  lemma ReplaceKeepsInvariants(rs: seq<Reservation>, k: nat, u: Reservation)
    requires k < |rs|
    requires u.id == rs[k].id && u.serviceType == rs[k].serviceType && u.duration == rs[k].duration
    ensures StandardDurations(rs) ==> StandardDurations(rs[k := u])
    ensures UniqueIds(rs) ==> UniqueIds(rs[k := u])
  {
    var after := rs[k := u];
    assert forall j :: 0 <= j < |rs| && j != k ==> after[j] == rs[j];
  }

  /** The stored reservation after a PUT: only its status changes. */
  function UpdatedReservation(r: Reservation, status: Option<Status>, action: Action): (u: Reservation)
    ensures u.status == UpdatedStatus(r.status, status, action)
    ensures u.(status := r.status) == r
    ensures ReservationSlots(u) == ReservationSlots(r)
  {
    r.(status := UpdatedStatus(r.status, status, action))
  }
}
