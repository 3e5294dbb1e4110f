/**
 * The guest-side booking form (src/components/sections/ReservationAdvanced.tsx):
 * the fixed table plan, the tests that grey out a table, the lists of
 * tables offered as the guest picks a party size, a date and a time, and
 * the test that lets the guest move on from each of the three steps.
 */
module BookingForm {
  import opened Wrappers
  import opened Seqs
  import opened Availability

  /** Bar stools (`sgabello`) or an ordinary table (`tavolo`). */
  datatype TableKind = Stool | Standard

  datatype Table = Table(id: string, name: string, minSeats: nat, maxSeats: nat, kind: TableKind)

  /** The room plan: three bar places and eight tables, in display order. */
  const Tables: seq<Table> := [
    Table("B1", "Bancone B1", 1, 4, Stool),
    Table("B2", "Bancone B2", 1, 4, Stool),
    Table("B3", "Bancone B3", 1, 4, Stool),
    Table("S1", "Tavolo S1", 3, 5, Standard),
    Table("S2", "Tavolo S2", 2, 3, Standard),
    Table("S3", "Tavolo S3", 3, 5, Standard),
    Table("S4", "Tavolo S4", 1, 2, Standard),
    Table("S5", "Tavolo S5", 1, 2, Standard),
    Table("S6", "Tavolo S6", 1, 2, Standard),
    Table("S7", "Tavolo S7", 1, 2, Standard),
    Table("S8", "Tavolo S8", 3, 5, Standard)
  ]

  /** Every table seats at least one and at most five. */
  predicate SeatsOneToFive(plan: seq<Table>) {
    forall i :: 0 <= i < |plan| ==> 1 <= plan[i].minSeats <= plan[i].maxSeats <= 5
  }

  /** No two tables share an id. */
  predicate DistinctIds(plan: seq<Table>) {
    forall i, j :: 0 <= i < j < |plan| ==> plan[i].id != plan[j].id
  }

  lemma TablesWellFormed()
    ensures SeatsOneToFive(Tables) && DistinctIds(Tables)
  {
  }

  /** A party of `n` fits table `t`. */
  predicate Fits(n: int, t: Table) {
    t.minSeats <= n <= t.maxSeats
  }

  /** `tables.find(t => t.id === tableId)` over the plan `plan`: the first table with that id. */
  function FindTable(plan: seq<Table>, tableId: string): (t: Option<Table>)
    ensures t.Some? ==> exists i :: (0 <= i < |plan| && plan[i] == t.value && t.value.id == tableId
      && forall j :: 0 <= j < i ==> plan[j].id != tableId)
    ensures t.None? <==> forall i :: 0 <= i < |plan| ==> plan[i].id != tableId
  {
    var k := FirstIndex((t: Table) => t.id == tableId, plan);
    if k.Some? then Some(plan[k.value]) else None
  }

  /** With distinct ids, looking up a listed table's id finds that very table. */
  lemma FindListedTable(plan: seq<Table>, i: nat)
    requires DistinctIds(plan)
    requires i < |plan|
    ensures FindTable(plan, plan[i].id) == Some(plan[i])
  {
  }

  /** `isTableBlocked`: the same (date, time, table) membership test as the admin grid. */
  predicate IsTableBlocked(slots: seq<BlockedSlot>, tableId: string, date: string, time: string)
    ensures IsTableBlocked(slots, tableId, date, time) <==>
      exists i :: 0 <= i < |slots| && slots[i].tableId == tableId && slots[i].date == date && slots[i].time == time
  {
    IsBlocked(slots, date, time, tableId)
  }

  /**
   * The form's guest field after `parseInt`: empty, not a number, or a
   * whole number (which may be 0, negative, or 6 and more).
   */
  datatype GuestsInput = NoGuests | NotANumber | Guests(n: int)

  datatype FormData = FormData(
    guests: GuestsInput,
    selectedTable: string,
    date: string,
    time: string,
    firstName: string,
    lastName: string,
    phone: string,
    notes: string)

  /**
   * `isTableCompatibleWithGuests`, the plan being the room's `Tables`: with
   * no usable party size every table is compatible; an unknown table never
   * is; otherwise the party must fit the first table with that id.
   */
  function IsTableCompatibleWithGuests(plan: seq<Table>, guests: GuestsInput, tableId: string): (ok: bool)
    ensures (guests.NoGuests? || guests.NotANumber? || guests == Guests(0)) ==> ok
    ensures guests.Guests? && guests.n != 0 ==>
      (ok <==> exists i :: (0 <= i < |plan| && plan[i].id == tableId && Fits(guests.n, plan[i])
        && forall j :: 0 <= j < i ==> plan[j].id != tableId))
  {
    match guests
    case NoGuests => true
    case NotANumber => true
    case Guests(n) =>
      if n == 0 then true
      else
        var table := FindTable(plan, tableId);
        if table.None? then false else Fits(n, table.value)
  }

  /** The tables whose capacity range holds a party of `n`, in plan order. */
  function FitFilter(n: int): (Table -> bool) {
    (t: Table) => Fits(n, t)
  }

  /** The tables not blocked at `date` and `time`. */
  function FreeFilter(slots: seq<BlockedSlot>, date: string, time: string): (Table -> bool) {
    (t: Table) => !IsTableBlocked(slots, t.id, date, time)
  }

  /**
   * The tables of `plan` offered to a party of `n`: those it fits, minus,
   * once both a date and a time are chosen, those blocked then.
   */
  function Offer(plan: seq<Table>, n: int, slots: seq<BlockedSlot>, date: string, time: string): seq<Table> {
    var fitting := Filter(FitFilter(n), plan);
    if date != "" && time != "" then Filter(FreeFilter(slots, date, time), fitting) else fitting
  }

  /** What the form offers: the offer from the room plan. */
  function TablesFor(n: int, slots: seq<BlockedSlot>, date: string, time: string): seq<Table> {
    Offer(Tables, n, slots, date, time)
  }

  /**
   * A table is offered exactly when it is in the plan, the party fits it
   * and, with a date and time chosen, it is not blocked then; the offer
   * keeps the plan's order.
   */
  lemma OfferMembership(plan: seq<Table>, n: int, slots: seq<BlockedSlot>, date: string, time: string)
    ensures forall t :: t in Offer(plan, n, slots, date, time) <==>
      t in plan && Fits(n, t) && (date != "" && time != "" ==> !IsTableBlocked(slots, t.id, date, time))
    ensures IsSubsequence(Offer(plan, n, slots, date, time), plan)
  {
    var fit, free := FitFilter(n), FreeFilter(slots, date, time);
    FilterMembership(fit, plan);
    if date != "" && time != "" {
      FilterMembership(free, Filter(fit, plan));
      FilterFilter(fit, free, plan);
      FilterIsSubsequence(Both(fit, free), plan);
    } else {
      FilterIsSubsequence(fit, plan);
    }
  }

  lemma TablesForMembership(n: int, slots: seq<BlockedSlot>, date: string, time: string)
    ensures forall t :: t in TablesFor(n, slots, date, time) <==>
      t in Tables && Fits(n, t) && (date != "" && time != "" ==> !IsTableBlocked(slots, t.id, date, time))
    ensures IsSubsequence(TablesFor(n, slots, date, time), Tables)
  {
    OfferMembership(Tables, n, slots, date, time);
  }

  /** No table seats six or more, nor a party of zero or fewer. */
  lemma NoTableOutsideOneToFive(plan: seq<Table>, n: int)
    requires SeatsOneToFive(plan)
    requires n >= 6 || n <= 0
    ensures Filter(FitFilter(n), plan) == []
  {
    FilterDropsAll(FitFilter(n), plan);
  }

  /** Every party of one to five fits some table. */
  lemma EveryPartyFits(n: int)
    requires 1 <= n <= 5
    ensures Filter(FitFilter(n), Tables) != []
  {
    if n <= 2 {
      assert Fits(n, Tables[0]);
    } else {
      assert Fits(n, Tables[3]);
    }
  }

  /** The form together with the list of tables it currently offers. */
  datatype FormState = FormState(data: FormData, available: seq<Table>)

  /**
   * `handleGuestsChange`: store the new party size and clear the chosen
   * table; offer nothing to six or more, nothing without a positive number,
   * and otherwise the tables the party fits that are free at the date and
   * time already chosen (if both are).
   */
  function GuestsChange(state: FormState, guests: GuestsInput, slots: seq<BlockedSlot>): (next: FormState)
    ensures next.data == state.data.(guests := guests, selectedTable := "")
    ensures !(guests.Guests? && 0 < guests.n < 6) ==> next.available == []
    ensures guests.Guests? && 0 < guests.n < 6 ==>
      next.available == TablesFor(guests.n, slots, state.data.date, state.data.time)
  {
    var data := state.data.(guests := guests, selectedTable := "");
    match guests
    case Guests(n) =>
      if n >= 6 then FormState(data, [])
      else if n > 0 then FormState(data, TablesFor(n, slots, state.data.date, state.data.time))
      else FormState(data, [])
    case _ => FormState(data, [])
  }

  /** Which of the two inputs `handleDateTimeChange` was called for. */
  datatype DateOrTime = DateField | TimeField

  /**
   * `handleDateTimeChange`: store the new date or time and clear the chosen
   * table; when a party size, a date and a time are all present, recompute
   * the offer by capacity and blocking (a party size that is not a number
   * fits nothing); otherwise keep the previous offer as it was.
   */
  function DateTimeChange(state: FormState, field: DateOrTime, value: string, slots: seq<BlockedSlot>): (next: FormState)
    ensures next.data.selectedTable == ""
    ensures field == DateField ==> next.data == state.data.(date := value, selectedTable := "")
    ensures field == TimeField ==> next.data == state.data.(time := value, selectedTable := "")
    ensures (next.data.guests.NoGuests? || next.data.date == "" || next.data.time == "") ==>
      next.available == state.available
  {
    var data := match field
      case DateField => state.data.(date := value, selectedTable := "")
      case TimeField => state.data.(time := value, selectedTable := "");
    if !data.guests.NoGuests? && data.date != "" && data.time != "" then
      var fitting := match data.guests
        case Guests(n) => Filter(FitFilter(n), Tables)
        case _ => [];
      FormState(data, Filter(FreeFilter(slots, data.date, data.time), fitting))
    else
      FormState(data, state.available)
  }

  /**
   * Once party size, date and time are all set, choosing the date or time
   * offers the same tables as choosing the party size would have, even for
   * six or more or a size that is not a positive number (the capacity
   * filter then finds nothing).
   */
  lemma DateTimeAgreesWithGuests(state: FormState, field: DateOrTime, value: string, slots: seq<BlockedSlot>)
    requires var next := DateTimeChange(state, field, value, slots);
      !next.data.guests.NoGuests? && next.data.date != "" && next.data.time != ""
    ensures var next := DateTimeChange(state, field, value, slots);
      next.available == GuestsChange(next, next.data.guests, slots).available
  {
    var next := DateTimeChange(state, field, value, slots);
    var d := next.data;
    match d.guests
    case Guests(n) =>
      if n >= 6 || n <= 0 {
        TablesWellFormed();
        NoTableOutsideOneToFive(Tables, n);
      }
    case NotANumber =>
  }

  /**
   * `isStepValid`: step 1 needs a party of one to five, step 2 a table, a
   * date and a time, step 3 a first name, a last name and a phone number;
   * there is no other step.
   */
  function IsStepValid(form: FormData, step: int): (ok: bool)
    ensures step == 1 ==> (ok <==> form.guests.Guests? && 1 <= form.guests.n <= 5)
    ensures step == 2 ==> (ok <==> form.selectedTable != "" && form.date != "" && form.time != "")
    ensures step == 3 ==> (ok <==> form.firstName != "" && form.lastName != "" && form.phone != "")
    ensures step != 1 && step != 2 && step != 3 ==> !ok
  {
    match step
    case 1 =>
      (match form.guests
       case Guests(n) => n > 0 && n < 6
       case _ => false)
    case 2 => form.selectedTable != "" && form.date != "" && form.time != ""
    case 3 => form.firstName != "" && form.lastName != "" && form.phone != ""
    case _ => false
  }

  /**
   * Step 1 lets the guest on exactly when the party size has some table in
   * the plan: a valid first step never leads to an empty choice of tables
   * before blocking is taken into account.
   */
  lemma StepOneIffSomeTableFits(form: FormData)
    requires form.guests.Guests?
    ensures IsStepValid(form, 1) <==> Filter(FitFilter(form.guests.n), Tables) != []
  {
    var n := form.guests.n;
    if 1 <= n <= 5 {
      EveryPartyFits(n);
    } else {
      TablesWellFormed();
      NoTableOutsideOneToFive(Tables, n);
    }
  }

  /**
   * In a plan with distinct ids, a table offered to a party is one the plan
   * shows as compatible with it: the offer and the greying-out agree.
   */
  lemma OfferedTablesAreCompatible(plan: seq<Table>, n: int, slots: seq<BlockedSlot>, date: string, time: string)
    requires DistinctIds(plan)
    ensures forall t :: t in Offer(plan, n, slots, date, time) ==> IsTableCompatibleWithGuests(plan, Guests(n), t.id)
  {
    OfferMembership(plan, n, slots, date, time);
    forall t | t in Offer(plan, n, slots, date, time)
      ensures IsTableCompatibleWithGuests(plan, Guests(n), t.id)
    {
      var i :| 0 <= i < |plan| && plan[i] == t;
      FindListedTable(plan, i);
    }
  }

  /** The room plan has distinct ids, so every table the form offers is drawn as compatible. */
  lemma FormOffersCompatibleTables(n: int, slots: seq<BlockedSlot>, date: string, time: string)
    ensures forall t :: t in TablesFor(n, slots, date, time) ==> IsTableCompatibleWithGuests(Tables, Guests(n), t.id)
  {
    TablesWellFormed();
    OfferedTablesAreCompatible(Tables, n, slots, date, time);
  }
}
