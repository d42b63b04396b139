/**
 * The free time of customers/models.py. An employee's shift frames become
 * slots day by day, the employee's and the customer's confirmed bookings are
 * cut out of them, and the remaining slots are broken into pieces of the
 * service's length, keyed and ordered by start time. Slot times are
 * truncated to the minute. The confirmed bookings of the employee and of the
 * customer, and the employees offering a service, are database lookups and
 * are given as values.
 */
module CustomersAvailability {
  import opened DateTimes
  import opened Wrappers
  import opened PyLists
  import M = SchedulingModels

  /** A `Slot`. */
  datatype Slot = Slot(start: DateTime, end: DateTime)

  /** `Slot(start, end)`: both times lose their seconds. */
  function NewSlot(start: DateTime, end: DateTime): (s: Slot)
    ensures s.start % MINUTE == 0 && s.start <= start < s.start + MINUTE
    ensures s.end % MINUTE == 0 && s.end <= end < s.end + MINUTE
  {
    Slot(TruncateMinute(start), TruncateMinute(end))
  }

  /** Both ends on a whole minute, as for every slot the constructor builds. */
  predicate Aligned(s: Slot)
  {
    s.start % MINUTE == 0 && s.end % MINUTE == 0
  }

  predicate AllAligned(slots: seq<Slot>)
  {
    forall s :: s in slots ==> Aligned(s)
  }

  /** `Slot.duration()`. */
  function Duration(s: Slot): int
  {
    s.end - s.start
  }

  /** `Slot.id`: the ISO text of the start, which determines the start; modelled by the start. */
  function Id(s: Slot): DateTime
  {
    s.start
  }

  /**
   * `Slot.breakdown_slot(d)`: a dictionary from piece start to piece. The
   * first piece is `[start, start + d]`, the rest comes from the remainder;
   * a slot exactly `d` long is its own piece, a shorter one gives nothing.
   */
  function Breakdown(s: Slot, d: int): (m: map<DateTime, Slot>)
    requires d >= MINUTE
    ensures forall k :: k in m ==> s.start <= k
    ensures Aligned(s) ==> forall k :: k in m ==> m[k].start == k && Aligned(m[k]) && m[k].end <= s.end
    decreases s.end - s.start
  {
    if Duration(s) > d then
      var breakPoint := s.start + d;
      var rest := NewSlot(breakPoint, s.end);
      map[Id(s) := NewSlot(s.start, breakPoint)] + Breakdown(rest, d)
    else if Duration(s) == d then
      map[Id(s) := s]
    else
      map[]
  }

  /** `k` is the start of a stretch of `d` inside the slot, a whole number of `d` after its start. */
  predicate PieceStart(s: Slot, d: int, k: int)
    requires d > 0
  {
    s.start <= k && k + d <= s.end && (k - s.start) % d == 0
  }

  /**
   * For a slot on whole minutes and a length in whole minutes, the pieces are
   * exactly the stretches `[start + k·d, start + (k+1)·d]` that fit in the
   * slot, keyed by their start; there are ⌊duration/d⌋ of them and a
   * remainder shorter than `d` is dropped.
   */
  lemma BreakdownExact(s: Slot, d: int)
    requires Aligned(s) && d >= MINUTE && d % MINUTE == 0
    ensures forall k :: k in Breakdown(s, d) <==> PieceStart(s, d, k)
    ensures forall k :: k in Breakdown(s, d) ==> Breakdown(s, d)[k] == Slot(k, k + d)
    ensures |Breakdown(s, d)| == if Duration(s) >= 0 then Duration(s) / d else 0
  {
    BreakdownKeys(s, d);
    BreakdownPieces(s, d);
    BreakdownCount(s, d);
  }

  /** The first piece of a slot longer than `d`, and the slot that is left. */
  lemma BreakdownUnfold(s: Slot, d: int)
    requires Aligned(s) && d >= MINUTE && d % MINUTE == 0 && Duration(s) > d
    ensures Aligned(Slot(s.start + d, s.end))
    ensures Breakdown(s, d) == map[s.start := Slot(s.start, s.start + d)] + Breakdown(Slot(s.start + d, s.end), d)
  {
    AlignedShift(s.start, d);
    NewSlotAligned(s.start, s.start + d);
    NewSlotAligned(s.start + d, s.end);
  }

  /** Two instants on whole minutes make a slot that `NewSlot` leaves as it is. */
  lemma NewSlotAligned(start: DateTime, end: DateTime)
    requires start % MINUTE == 0 && end % MINUTE == 0
    ensures NewSlot(start, end) == Slot(start, end)
  {
  }

  /** A piece start of a slot longer than `d` is its start or a piece start of what follows the first piece. */
  lemma PieceStartStep(s: Slot, d: int, k: int)
    requires d > 0
    ensures Duration(s) > d ==> (PieceStart(s, d, k) <==> k == s.start || PieceStart(Slot(s.start + d, s.end), d, k))
    ensures Duration(s) == d ==> (PieceStart(s, d, k) <==> k == s.start)
  {
    MultipleStep(k, s.start, d);
  }

  lemma {:induction false} BreakdownKeys(s: Slot, d: int)
    requires Aligned(s) && d >= MINUTE && d % MINUTE == 0
    ensures forall k :: k in Breakdown(s, d) <==> PieceStart(s, d, k)
    decreases s.end - s.start
  {
    if Duration(s) > d {
      var rest := Slot(s.start + d, s.end);
      BreakdownUnfold(s, d);
      BreakdownKeys(rest, d);
      forall k
        ensures k in Breakdown(s, d) <==> PieceStart(s, d, k)
      {
        assert k in Breakdown(s, d) <==> k == s.start || k in Breakdown(rest, d);
        PieceStartStep(s, d, k);
      }
    } else if Duration(s) == d {
      forall k
        ensures k in Breakdown(s, d) <==> PieceStart(s, d, k)
      {
        PieceStartStep(s, d, k);
      }
    }
  }

  lemma {:induction false} BreakdownPieces(s: Slot, d: int)
    requires Aligned(s) && d >= MINUTE && d % MINUTE == 0
    ensures forall k :: k in Breakdown(s, d) ==> Breakdown(s, d)[k] == Slot(k, k + d)
    decreases s.end - s.start
  {
    if Duration(s) > d {
      BreakdownUnfold(s, d);
      BreakdownPieces(Slot(s.start + d, s.end), d);
    }
  }

  lemma {:induction false} BreakdownCount(s: Slot, d: int)
    requires Aligned(s) && d >= MINUTE && d % MINUTE == 0
    ensures |Breakdown(s, d)| == if Duration(s) >= 0 then Duration(s) / d else 0
    decreases s.end - s.start
  {
    var n := Duration(s);
    if n > d {
      var rest := Slot(s.start + d, s.end);
      BreakdownUnfold(s, d);
      BreakdownCount(rest, d);
      var m := Breakdown(rest, d);
      var r := Duration(rest);
      assert r == n - d && r > 0;
      assert |m| == r / d;
      assert s.start !in m.Keys;
      assert Breakdown(s, d).Keys == {s.start} + m.Keys;
      assert |Breakdown(s, d)| == |m| + 1;
      QuotientStep(n, d);
    } else if n == d {
      assert Breakdown(s, d).Keys == {s.start};
      DivModUnique(d, d, 1, 0);
    } else if n >= 0 {
      assert |Breakdown(s, d)| == 0;
      DivModUnique(n, d, 0, n);
    }
  }

  /**
   * `Slot.create_slot(date, start, end)`: the calendar day of `date` at the
   * hours and minutes of the two frame times.
   */
  function CreateSlot(date: DateTime, start: TimeOfDay, end: TimeOfDay): (s: Slot)
    ensures s == Slot(Midnight(date) + TruncateMinute(start), Midnight(date) + TruncateMinute(end))
  {
    NewSlot(ReplaceHourMinute(date, start), ReplaceHourMinute(date, end))
  }

  /** The list comprehension over one day's frames. */
  function FrameSlots(day: DateTime, frames: seq<M.TimeFrame>): seq<Slot>
  {
    seq(|frames|, i requires 0 <= i < |frames| => CreateSlot(day, frames[i].start, frames[i].end))
  }

  /** The slots of the day loop: the frames of `day`, then those of the days after it, while before `end`. */
  function DaySlots(e: M.Employee, day: DateTime, end: DateTime): seq<Slot>
    decreases end - day
  {
    if day < end then FrameSlots(day, M.EmployeeAvailability(e, day)) + DaySlots(e, day + DAY, end) else []
  }

  /** Every slot the day loop builds is on whole minutes. */
  lemma {:induction false} DaySlotsAligned(e: M.Employee, day: DateTime, end: DateTime)
    ensures AllAligned(DaySlots(e, day, end))
    decreases end - day
  {
    if day < end {
      DaySlotsAligned(e, day + DAY, end);
    }
  }

  /** A confirmed booking, as the loop reads it: its start and end. */
  datatype Booking = Booking(start: DateTime, end: DateTime)

  /** The booking holds the whole slot. */
  predicate Covers(a: Booking, s: Slot)
  {
    a.start <= s.start && a.end >= s.end
  }

  /** The slot holds the whole booking. */
  predicate Inside(a: Booking, s: Slot)
  {
    a.start >= s.start && a.end <= s.end
  }

  /**
   * One turn of `for i, slot in enumerate(snapshot)`: `slot` comes from the
   * list as it was when the loop began, `slots` is the current list and `i`
   * indexes the current list. Both tests run, the second on the result of
   * the first.
   */
  function Step(a: Booking, slot: Slot, i: nat, slots: seq<Slot>): seq<Slot>
  {
    var removed := if Covers(a, slot) then Take(slots, i) + Drop(slots, i + 1) else slots;
    if Inside(a, slot) then
      Take(removed, i) + [NewSlot(slot.start, a.start), NewSlot(a.end, slot.end)] + Drop(removed, i + 1)
    else removed
  }

  lemma StepAligned(a: Booking, slot: Slot, i: nat, slots: seq<Slot>)
    ensures AllAligned(slots) ==> AllAligned(Step(a, slot, i, slots))
  {
    if AllAligned(slots) {
      var removed := if Covers(a, slot) then Take(slots, i) + Drop(slots, i + 1) else slots;
      SliceMembers(slots, i);
      SliceMembers(slots, i + 1);
      assert AllAligned(removed);
      if Inside(a, slot) {
        SliceMembers(removed, i);
        SliceMembers(removed, i + 1);
        var pieces := [NewSlot(slot.start, a.start), NewSlot(a.end, slot.end)];
        assert AllAligned(pieces);
        assert Step(a, slot, i, slots) == Take(removed, i) + pieces + Drop(removed, i + 1);
      }
    }
  }

  /** The inner loop over one booking, from index `i` of the snapshot on. */
  function Pass(a: Booking, snapshot: seq<Slot>, i: nat, slots: seq<Slot>): seq<Slot>
    decreases |snapshot| - i
  {
    if i < |snapshot| then Pass(a, snapshot, i + 1, Step(a, snapshot[i], i, slots)) else slots
  }

  lemma PassUnfold(a: Booking, snapshot: seq<Slot>, i: nat, slots: seq<Slot>)
    requires i < |snapshot|
    ensures Pass(a, snapshot, i, slots) == Pass(a, snapshot, i + 1, Step(a, snapshot[i], i, slots))
  {
  }

  /** The outer loop: each booking in turn, over the list the previous one left. */
  function Subtract(slots: seq<Slot>, bookings: seq<Booking>): seq<Slot>
    decreases |bookings|
  {
    if bookings == [] then slots else Subtract(Pass(bookings[0], slots, 0, slots), bookings[1..])
  }

  lemma {:induction false} PassAligned(a: Booking, snapshot: seq<Slot>, i: nat, slots: seq<Slot>)
    requires AllAligned(slots)
    ensures AllAligned(Pass(a, snapshot, i, slots))
    decreases |snapshot| - i
  {
    if i < |snapshot| {
      StepAligned(a, snapshot[i], i, slots);
      PassAligned(a, snapshot, i + 1, Step(a, snapshot[i], i, slots));
    }
  }

  /** Cutting bookings out keeps every slot on whole minutes. */
  lemma {:induction false} SubtractAligned(slots: seq<Slot>, bookings: seq<Booking>)
    requires AllAligned(slots)
    ensures AllAligned(Subtract(slots, bookings))
    decreases |bookings|
  {
    if bookings != [] {
      PassAligned(bookings[0], slots, 0, slots);
      SubtractAligned(Pass(bookings[0], slots, 0, slots), bookings[1..]);
    }
  }

  /** `InvalidActionException` with its message. */
  datatype Error = InvalidAction(message: string)

  const PastDate: string := "Date can't be in the past"
  const NotProvided: string := "Employee doesn't provide the service specified"

  /** The bookings to cut out: the employee's, then the customer's when a customer is given. */
  function Bookings(employeeBookings: seq<Booking>, customer: Option<seq<Booking>>): seq<Booking>
  {
    if customer.Some? then employeeBookings + customer.value else employeeBookings
  }

  /**
   * `get_availability(employee, customer, start, end)` with `today` the
   * current date; it fails exactly when start's date is not after today.
   */
  function GetAvailabilitySpec(e: M.Employee, employeeBookings: seq<Booking>, customer: Option<seq<Booking>>,
                               start: DateTime, end: DateTime, today: int): (r: Result<seq<Slot>, Error>)
    ensures r.Err? <==> Date(start) <= today
    ensures r.Err? ==> r.error == InvalidAction(PastDate)
    ensures r.Ok? ==> AllAligned(r.value)
  {
    if Date(start) <= today then Err(InvalidAction(PastDate))
    else
      DaySlotsAligned(e, start, end);
      SubtractAligned(DaySlots(e, start, end), Bookings(employeeBookings, customer));
      Ok(Subtract(DaySlots(e, start, end), Bookings(employeeBookings, customer)))
  }

  /** The `while day < end` loop of `get_availability`: one slot per frame, day by day. */
  method BuildSlots(e: M.Employee, start: DateTime, end: DateTime) returns (slots: seq<Slot>)
    ensures slots == DaySlots(e, start, end)
  {
    var day := start;
    slots := [];
    while day < end
      invariant slots + DaySlots(e, day, end) == DaySlots(e, start, end)
      decreases end - day
    {
      var frames := M.EmployeeAvailability(e, day);
      ghost var later := DaySlots(e, day + DAY, end);
      assert DaySlots(e, day, end) == FrameSlots(day, frames) + later;
      assert (slots + FrameSlots(day, frames)) + later == slots + (FrameSlots(day, frames) + later);
      slots := slots + FrameSlots(day, frames);
      day := day + DAY;
    }
  }

  /**
   * The booking loops of `get_availability`: each booking in turn runs the
   * `enumerate` loop over the list as it was before that booking.
   */
  method CutOut(built: seq<Slot>, appointments: seq<Booking>) returns (slots: seq<Slot>)
    ensures slots == Subtract(built, appointments)
  {
    slots := built;
    var j := 0;
    assert appointments[j..] == appointments;
    while j < |appointments|
      invariant 0 <= j <= |appointments|
      invariant Subtract(slots, appointments[j..]) == Subtract(built, appointments)
    {
      assert appointments[j..][0] == appointments[j];
      assert appointments[j..][1..] == appointments[j + 1..];
      slots := Sweep(appointments[j], slots);
      j := j + 1;
    }
    assert appointments[j..] == [];
  }

  /**
   * The `enumerate` loop for one booking over the list as it was: the index
   * `i` of the snapshot addresses the current list, which a covering booking
   * shortens and a booking inside a slot lengthens.
   */
  method Sweep(appointment: Booking, snapshot: seq<Slot>) returns (slots: seq<Slot>)
    ensures slots == Pass(appointment, snapshot, 0, snapshot)
  {
    slots := snapshot;
    var i := 0;
    while i < |snapshot|
      invariant 0 <= i <= |snapshot|
      invariant Pass(appointment, snapshot, i, slots) == Pass(appointment, snapshot, 0, snapshot)
    {
      var slot := snapshot[i];
      PassUnfold(appointment, snapshot, i, slots);
      ghost var before := slots;
      if Covers(appointment, slot) {
        slots := Take(slots, i) + Drop(slots, i + 1);
      }
      if Inside(appointment, slot) {
        slots := Take(slots, i) + [NewSlot(slot.start, appointment.start), NewSlot(appointment.end, slot.end)]
                 + Drop(slots, i + 1);
      }
      assert slots == Step(appointment, slot, i, before);
      i := i + 1;
    }
  }

  /** `get_availability`: the date check, the day loop, the bookings, then the booking loops. */
  method GetAvailability(e: M.Employee, employeeBookings: seq<Booking>, customer: Option<seq<Booking>>,
                         start: DateTime, end: DateTime, today: int) returns (r: Result<seq<Slot>, Error>)
    ensures r == GetAvailabilitySpec(e, employeeBookings, customer, start, end, today)
  {
    if Date(start) <= today {
      return Err(InvalidAction(PastDate));
    }
    var slots := BuildSlots(e, start, end);
    var appointments := employeeBookings;
    if customer.Some? {
      appointments := appointments + customer.value;
    }
    slots := CutOut(slots, appointments);
    return Ok(slots);
  }

  /** Turns over snapshot entries the booking neither covers nor sits inside change nothing. */
  lemma {:induction false} PassSkips(a: Booking, snapshot: seq<Slot>, i: nat, j: nat, slots: seq<Slot>)
    requires i <= j <= |snapshot|
    requires forall k :: i <= k < j ==> !Covers(a, snapshot[k]) && !Inside(a, snapshot[k])
    ensures Pass(a, snapshot, i, slots) == Pass(a, snapshot, j, slots)
    decreases j - i
  {
    if i < j {
      assert Step(a, snapshot[i], i, slots) == slots;
      PassSkips(a, snapshot, i + 1, j, slots);
    }
  }

  /** When a booking touches only slot `j` of the list, the pass is the single turn at `j`. */
  lemma PassOneHit(a: Booking, slots: seq<Slot>, j: nat)
    requires j < |slots|
    requires forall k :: 0 <= k < |slots| && k != j ==> !Covers(a, slots[k]) && !Inside(a, slots[k])
    ensures Pass(a, slots, 0, slots) == Step(a, slots[j], j, slots)
  {
    PassSkips(a, slots, 0, j, slots);
    PassSkips(a, slots, j + 1, |slots|, Step(a, slots[j], j, slots));
  }

  /**
   * What the turn at index `j` does to a list whose entry `j` is the
   * snapshot's slot: a covering booking removes the slot, a booking inside it
   * splits it around the booking, any other booking leaves it. A booking with
   * the slot's exact bounds is both: the slot is removed and then the split
   * lands on the next slot, which is lost.
   */
  lemma StepOutcomes(a: Booking, slots: seq<Slot>, j: nat)
    requires j < |slots|
    ensures var s := slots[j];
            Covers(a, s) && !Inside(a, s) ==> Step(a, s, j, slots) == slots[..j] + slots[j + 1..]
    ensures var s := slots[j];
            Inside(a, s) && !Covers(a, s) ==>
              Step(a, s, j, slots) == slots[..j] + [NewSlot(s.start, a.start), NewSlot(a.end, s.end)] + slots[j + 1..]
    ensures var s := slots[j];
            !Covers(a, s) && !Inside(a, s) ==> Step(a, s, j, slots) == slots
    ensures var s := slots[j];
            Covers(a, s) && Inside(a, s) && j + 1 < |slots| ==>
              Step(a, s, j, slots) == slots[..j] + [NewSlot(s.start, s.start), NewSlot(s.end, s.end)] + slots[j + 2..]
  {
    var s := slots[j];
    if Covers(a, s) && Inside(a, s) && j + 1 < |slots| {
      var removed := slots[..j] + slots[j + 1..];
      assert Take(removed, j) == slots[..j];
      assert Drop(removed, j + 1) == slots[j + 2..];
    }
  }

  /**
   * With two neighbouring slots that one booking covers, removing the first
   * shifts the second to the index just visited, so the second survives.
   */
  lemma CoveredNeighbourSurvives(a: Booking, s0: Slot, s1: Slot)
    requires Covers(a, s0) && !Inside(a, s0) && Covers(a, s1) && !Inside(a, s1)
    ensures Subtract([s0, s1], [a]) == [s1]
  {
    var snapshot := [s0, s1];
    assert Step(a, s0, 0, snapshot) == [s1];
    assert Step(a, s1, 1, [s1]) == [s1];
    assert Pass(a, snapshot, 2, [s1]) == [s1];
    assert Pass(a, snapshot, 1, [s1]) == [s1];
    assert Pass(a, snapshot, 0, snapshot) == [s1];
  }

  /** The service as this module reads it: its id and its `duration`, a length. */
  datatype Service = Service(id: nat, duration: int)

  /** An employee offering the service, with its confirmed bookings. */
  datatype Staff = Staff(employee: M.Employee, bookings: seq<Booking>)

  /** `slots.update(slot.breakdown_slot(d))` for each slot in turn. */
  function Collect(acc: map<DateTime, Slot>, slots: seq<Slot>, d: int): map<DateTime, Slot>
    requires d >= MINUTE
    decreases |slots|
  {
    if slots == [] then acc else Collect(acc + Breakdown(slots[0], d), slots[1..], d)
  }

  /** The loop over `service.employee_set.all()`; the first failure ends it. */
  function CollectStaff(acc: map<DateTime, Slot>, staff: seq<Staff>, customer: Option<seq<Booking>>,
                        start: DateTime, end: DateTime, today: int, d: int): Result<map<DateTime, Slot>, Error>
    requires d >= MINUTE
    decreases |staff|
  {
    if staff == [] then Ok(acc)
    else match GetAvailabilitySpec(staff[0].employee, staff[0].bookings, customer, start, end, today)
      case Err(err) => Err(err)
      case Ok(slots) => CollectStaff(Collect(acc, slots, d), staff[1..], customer, start, end, today, d)
  }

  /** `sorted(slots.values(), key=start)`, with each piece stored under its own start. */
  function SortedByStart(m: map<DateTime, Slot>): (r: seq<Slot>)
    ensures |r| == |m|
  {
    var ks := SortedInts(m.Keys);
    seq(|ks|, i requires 0 <= i < |ks| => m[ks[i]])
  }

  /**
   * `get_availability_for_service(service, start, end, employee, customer)`;
   * `staff` is `service.employee_set.all()`, read when no employee is given.
   */
  function ForServiceSpec(service: Service, start: DateTime, end: DateTime, employee: Option<Staff>,
                          customer: Option<seq<Booking>>, staff: seq<Staff>, today: int): Result<seq<Slot>, Error>
    requires service.duration >= MINUTE
  {
    if employee.Some? && !M.ProvidesService(employee.value.employee, service.id) then
      Err(InvalidAction(NotProvided))
    else
      var collected :=
        if employee.Some? then
          match GetAvailabilitySpec(employee.value.employee, employee.value.bookings, customer, start, end, today)
          case Err(err) => Err(err)
          case Ok(slots) => Ok(Collect(map[], slots, service.duration))
        else CollectStaff(map[], staff, customer, start, end, today, service.duration);
      match collected
      case Err(err) => Err(err)
      case Ok(m) => Ok(SortedByStart(m))
  }

  /** `for slot in availability: slots.update(slot.breakdown_slot(d))`. */
  method Gather(acc: map<DateTime, Slot>, available: seq<Slot>, d: int) returns (slots: map<DateTime, Slot>)
    requires d >= MINUTE
    ensures slots == Collect(acc, available, d)
  {
    slots := acc;
    var k := 0;
    while k < |available|
      invariant 0 <= k <= |available|
      invariant Collect(slots, available[k..], d) == Collect(acc, available, d)
    {
      assert available[k..][1..] == available[k + 1..];
      slots := slots + Breakdown(available[k], d);
      k := k + 1;
    }
  }

  /** `get_availability_for_service`, loop by loop. */
  method GetAvailabilityForService(service: Service, start: DateTime, end: DateTime, employee: Option<Staff>,
                                   customer: Option<seq<Booking>>, staff: seq<Staff>, today: int)
    returns (r: Result<seq<Slot>, Error>)
    requires service.duration >= MINUTE
    ensures r == ForServiceSpec(service, start, end, employee, customer, staff, today)
  {
    if employee.Some? && !M.ProvidesService(employee.value.employee, service.id) {
      return Err(InvalidAction(NotProvided));
    }
    var slots: map<DateTime, Slot> := map[];
    if employee.Some? {
      var available := GetAvailability(employee.value.employee, employee.value.bookings, customer, start, end, today);
      if available.Err? {
        return Err(available.error);
      }
      slots := Gather(slots, available.value, service.duration);
    } else {
      var n := 0;
      while n < |staff|
        invariant 0 <= n <= |staff|
        invariant CollectStaff(slots, staff[n..], customer, start, end, today, service.duration)
                  == CollectStaff(map[], staff, customer, start, end, today, service.duration)
      {
        var available := GetAvailability(staff[n].employee, staff[n].bookings, customer, start, end, today);
        if available.Err? {
          return Err(available.error);
        }
        slots := Gather(slots, available.value, service.duration);
        assert staff[n..][1..] == staff[n + 1..];
        n := n + 1;
      }
    }
    return Ok(SortedByStart(slots));
  }

  /** Every piece is stored under its own start. */
  predicate Keyed(m: map<DateTime, Slot>)
  {
    forall k :: k in m ==> m[k].start == k
  }

  /** Every piece is exactly `d` long. */
  predicate Exact(m: map<DateTime, Slot>, d: int)
  {
    forall k :: k in m ==> m[k] == Slot(k, k + d)
  }

  /** The dictionary loop gathers the pieces of every slot, later pieces replacing earlier ones at the same start. */
  lemma {:induction false} CollectKeys(acc: map<DateTime, Slot>, slots: seq<Slot>, d: int)
    requires d >= MINUTE
    ensures forall k :: k in Collect(acc, slots, d) <==>
              k in acc || exists i :: 0 <= i < |slots| && k in Breakdown(slots[i], d)
    decreases |slots|
  {
    if slots != [] {
      CollectKeys(acc + Breakdown(slots[0], d), slots[1..], d);
      forall k
        ensures (exists i :: 0 <= i < |slots| && k in Breakdown(slots[i], d)) <==>
                k in Breakdown(slots[0], d) || exists i :: 0 <= i < |slots[1..]| && k in Breakdown(slots[1..][i], d)
      {
        if exists i :: 0 <= i < |slots| && k in Breakdown(slots[i], d) {
          var i :| 0 <= i < |slots| && k in Breakdown(slots[i], d);
          if i > 0 {
            assert slots[1..][i - 1] == slots[i];
          }
        }
        if exists i :: 0 <= i < |slots[1..]| && k in Breakdown(slots[1..][i], d) {
          var i :| 0 <= i < |slots[1..]| && k in Breakdown(slots[1..][i], d);
          assert slots[1..][i] == slots[i + 1];
        }
      }
    }
  }

  /** Pieces of slots on whole minutes stay under their own start. */
  lemma {:induction false} CollectKeyed(acc: map<DateTime, Slot>, slots: seq<Slot>, d: int)
    requires d >= MINUTE && AllAligned(slots) && Keyed(acc)
    ensures Keyed(Collect(acc, slots, d))
    decreases |slots|
  {
    if slots != [] {
      assert Aligned(slots[0]) by { assert slots[0] in slots; }
      assert AllAligned(slots[1..]) by { assert forall s :: s in slots[1..] ==> s in slots; }
      var b := Breakdown(slots[0], d);
      assert Keyed(acc + b);
      CollectKeyed(acc + b, slots[1..], d);
    }
  }

  /** For a length in whole minutes, every piece gathered is exactly that long. */
  lemma {:induction false} CollectExact(acc: map<DateTime, Slot>, slots: seq<Slot>, d: int)
    requires d >= MINUTE && d % MINUTE == 0 && AllAligned(slots) && Exact(acc, d)
    ensures Exact(Collect(acc, slots, d), d)
    decreases |slots|
  {
    if slots != [] {
      assert Aligned(slots[0]) by { assert slots[0] in slots; }
      assert AllAligned(slots[1..]) by { assert forall s :: s in slots[1..] ==> s in slots; }
      var b := Breakdown(slots[0], d);
      BreakdownExact(slots[0], d);
      assert Exact(acc + b, d);
      CollectExact(acc + b, slots[1..], d);
    }
  }

  /** The pieces one employee contributes at start time `k`. */
  predicate Offered(st: Staff, customer: Option<seq<Booking>>, start: DateTime, end: DateTime, today: int, d: int, k: DateTime)
    requires d >= MINUTE
  {
    var r := GetAvailabilitySpec(st.employee, st.bookings, customer, start, end, today);
    r.Ok? && exists i :: 0 <= i < |r.value| && k in Breakdown(r.value[i], d)
  }

  /**
   * Without an employee the loop fails iff there is some employee and the
   * date is past; otherwise the start times gathered are those offered by any
   * employee, and the pieces keep their shape.
   */
  lemma {:induction false} CollectStaffFacts(acc: map<DateTime, Slot>, staff: seq<Staff>, customer: Option<seq<Booking>>,
                                             start: DateTime, end: DateTime, today: int, d: int)
    requires d >= MINUTE
    ensures var r := CollectStaff(acc, staff, customer, start, end, today, d);
            (r.Err? <==> staff != [] && Date(start) <= today) &&
            (r.Err? ==> r.error == InvalidAction(PastDate)) &&
            (r.Ok? ==> forall k :: k in r.value <==>
                         k in acc || exists n :: 0 <= n < |staff| && Offered(staff[n], customer, start, end, today, d, k)) &&
            (r.Ok? && Keyed(acc) ==> Keyed(r.value)) &&
            (r.Ok? && d % MINUTE == 0 && Exact(acc, d) ==> Exact(r.value, d))
    decreases |staff|
  {
    if staff != [] {
      var g := GetAvailabilitySpec(staff[0].employee, staff[0].bookings, customer, start, end, today);
      if g.Ok? {
        var next := Collect(acc, g.value, d);
        CollectKeys(acc, g.value, d);
        if Keyed(acc) {
          CollectKeyed(acc, g.value, d);
        }
        if d % MINUTE == 0 && Exact(acc, d) {
          CollectExact(acc, g.value, d);
        }
        CollectStaffFacts(next, staff[1..], customer, start, end, today, d);
        var r := CollectStaff(acc, staff, customer, start, end, today, d);
        assert r == CollectStaff(next, staff[1..], customer, start, end, today, d);
        if r.Ok? {
          forall k
            ensures k in r.value <==>
                    k in acc || exists n :: 0 <= n < |staff| && Offered(staff[n], customer, start, end, today, d, k)
          {
            assert k in next <==> k in acc || Offered(staff[0], customer, start, end, today, d, k);
            OfferedStep(staff, customer, start, end, today, d, k);
          }
        }
      }
    }
  }

  /** Some member of the staff offers `k` iff the first does or some member of the rest does. */
  lemma OfferedStep(staff: seq<Staff>, customer: Option<seq<Booking>>, start: DateTime, end: DateTime,
                    today: int, d: int, k: DateTime)
    requires d >= MINUTE && staff != []
    ensures (exists n :: 0 <= n < |staff| && Offered(staff[n], customer, start, end, today, d, k)) <==>
            Offered(staff[0], customer, start, end, today, d, k) ||
            exists n :: 0 <= n < |staff[1..]| && Offered(staff[1..][n], customer, start, end, today, d, k)
  {
    if exists n :: 0 <= n < |staff| && Offered(staff[n], customer, start, end, today, d, k) {
      var n :| 0 <= n < |staff| && Offered(staff[n], customer, start, end, today, d, k);
      if n > 0 {
        assert staff[1..][n - 1] == staff[n];
      }
    }
    if exists n :: 0 <= n < |staff[1..]| && Offered(staff[1..][n], customer, start, end, today, d, k) {
      var n :| 0 <= n < |staff[1..]| && Offered(staff[1..][n], customer, start, end, today, d, k);
      assert staff[1..][n] == staff[n + 1];
    }
  }

  /** Some piece of the list starts at `k`. */
  predicate StartsAt(r: seq<Slot>, k: DateTime)
  {
    exists i :: 0 <= i < |r| && r[i].start == k
  }

  /** The ascending list of a keyed dictionary: strictly increasing starts, one per key. */
  lemma SortedByStartOrder(m: map<DateTime, Slot>)
    requires Keyed(m)
    ensures var r := SortedByStart(m);
            (forall i, j :: 0 <= i < j < |r| ==> r[i].start < r[j].start) &&
            (forall i :: 0 <= i < |r| ==> r[i].start in m && r[i] == m[r[i].start]) &&
            (forall k :: k in m ==> StartsAt(r, k))
  {
    var ks := SortedInts(m.Keys);
    var r := SortedByStart(m);
    SortedByStartAt(m);
    forall k | k in m
      ensures StartsAt(r, k)
    {
      var i :| 0 <= i < |ks| && ks[i] == k;
      assert r[i].start == k;
    }
  }

  /** The piece at each place of the ascending list is the one stored under the key at that place. */
  lemma SortedByStartAt(m: map<DateTime, Slot>)
    requires Keyed(m)
    ensures forall i :: 0 <= i < |SortedByStart(m)| ==>
              SortedByStart(m)[i] == m[SortedInts(m.Keys)[i]] && SortedByStart(m)[i].start == SortedInts(m.Keys)[i]
  {
  }

  /**
   * `get_availability_for_service` fails with the service message iff an
   * employee is given that does not offer the service; otherwise with the
   * date message iff the date is past and some availability is computed.
   */
  lemma ForServiceErrors(service: Service, start: DateTime, end: DateTime, employee: Option<Staff>,
                         customer: Option<seq<Booking>>, staff: seq<Staff>, today: int)
    requires service.duration >= MINUTE
    ensures var r := ForServiceSpec(service, start, end, employee, customer, staff, today);
            var refused := employee.Some? && !M.ProvidesService(employee.value.employee, service.id);
            (r == Err(InvalidAction(NotProvided)) <==> refused) &&
            (r == Err(InvalidAction(PastDate)) <==> !refused && Date(start) <= today && (employee.Some? || staff != []))
  {
    CollectStaffFacts(map[], staff, customer, start, end, today, service.duration);
  }

  /**
   * The result is ordered by start with at most one piece per start time,
   * and, for a duration in whole minutes, every piece is exactly the
   * service's duration long.
   */
  lemma ForServiceSorted(service: Service, start: DateTime, end: DateTime, employee: Option<Staff>,
                         customer: Option<seq<Booking>>, staff: seq<Staff>, today: int)
    requires service.duration >= MINUTE
    ensures var r := ForServiceSpec(service, start, end, employee, customer, staff, today);
            r.Ok? ==> forall i, j :: 0 <= i < j < |r.value| ==> r.value[i].start < r.value[j].start
    ensures var r := ForServiceSpec(service, start, end, employee, customer, staff, today);
            r.Ok? && service.duration % MINUTE == 0 ==>
              forall i :: 0 <= i < |r.value| ==> Duration(r.value[i]) == service.duration
  {
    var d := service.duration;
    var r := ForServiceSpec(service, start, end, employee, customer, staff, today);
    if r.Ok? {
      var m: map<DateTime, Slot>;
      if employee.Some? {
        var g := GetAvailabilitySpec(employee.value.employee, employee.value.bookings, customer, start, end, today);
        m := Collect(map[], g.value, d);
        CollectKeyed(map[], g.value, d);
        if d % MINUTE == 0 {
          CollectExact(map[], g.value, d);
        }
      } else {
        CollectStaffFacts(map[], staff, customer, start, end, today, d);
        m := CollectStaff(map[], staff, customer, start, end, today, d).value;
      }
      assert r.value == SortedByStart(m);
      SortedByStartOrder(m);
    }
  }

  /**
   * Without an employee, a start time is offered iff some employee offering
   * the service has a piece starting then.
   */
  lemma ForServiceMerges(service: Service, start: DateTime, end: DateTime,
                         customer: Option<seq<Booking>>, staff: seq<Staff>, today: int)
    requires service.duration >= MINUTE
    ensures var r := ForServiceSpec(service, start, end, None, customer, staff, today);
            r.Ok? ==> forall k :: StartsAt(r.value, k) <==>
                                  exists n :: 0 <= n < |staff| && Offered(staff[n], customer, start, end, today, service.duration, k)
  {
    var d := service.duration;
    var r := ForServiceSpec(service, start, end, None, customer, staff, today);
    if r.Ok? {
      CollectStaffFacts(map[], staff, customer, start, end, today, d);
      var m := CollectStaff(map[], staff, customer, start, end, today, d).value;
      SortedByStartOrder(m);
    }
  }

  /** Pieces under disjoint start times add up. */
  lemma UnionSize(a: map<DateTime, Slot>, b: map<DateTime, Slot>)
    requires forall k :: k in a ==> k !in b
    ensures |a + b| == |a| + |b|
  {
    var ak := a.Keys;
    var bk := b.Keys;
    assert (a + b).Keys == ak + bk;
    assert forall k :: k in ak ==> k !in bk;
    assert ak * bk == {};
    assert |ak + bk| == |ak| + |bk|;
    assert |a| == |ak| && |b| == |bk| && |a + b| == |(a + b).Keys|;
  }

  /** The frames 9:00-13:00 and 14:00-17:00 of the Tuesday shift used in the availability tests. */
  const TuesdayFrames: seq<M.TimeFrame> := [M.TimeFrame(9 * HOUR, 13 * HOUR), M.TimeFrame(14 * HOUR, 17 * HOUR)]

  /** An instant on a whole minute, shifted by whole minutes, stays on a whole minute. */
  lemma MinuteShift(t: DateTime, minutes: int)
    requires t % DAY == 0
    ensures (t + minutes * MINUTE) % MINUTE == 0
  {
    DivModUnique(t + minutes * MINUTE, MINUTE, Date(t) * 1440 + minutes, 0);
  }

  /** On a Tuesday with that shift, the day loop from midnight to 23:59 builds the two frame slots. */
  lemma TuesdaySlots(e: M.Employee, t: DateTime)
    requires t % DAY == 0 && Weekday(t) == 1
    requires e.schedule.tue.Some? && e.schedule.tue.value.frames == TuesdayFrames
    ensures DaySlots(e, t, t + 23 * HOUR + 59 * MINUTE) == [Slot(t + 9 * HOUR, t + 13 * HOUR), Slot(t + 14 * HOUR, t + 17 * HOUR)]
  {
    assert M.EmployeeAvailability(e, t) == TuesdayFrames;
    assert Midnight(t) == t;
    assert DaySlots(e, t + DAY, t + 23 * HOUR + 59 * MINUTE) == [];
  }

  /** The half-hour pieces of a slot on whole minutes: ⌊duration / 30 min⌋ of them, all inside the slot. */
  lemma HalfHours(s: Slot)
    requires Aligned(s) && s.start <= s.end
    ensures var b := Breakdown(s, 30 * MINUTE);
            |b| == Duration(s) / (30 * MINUTE) && forall k :: k in b ==> s.start <= k && k + 30 * MINUTE <= s.end
  {
    BreakdownExact(s, 30 * MINUTE);
  }

  lemma CollectTwo(s0: Slot, s1: Slot, d: int)
    requires d >= MINUTE
    ensures Collect(map[], [s0, s1], d) == Breakdown(s0, d) + Breakdown(s1, d)
  {
    var m0 := map[] + Breakdown(s0, d);
    assert m0 == Breakdown(s0, d);
    assert [s0, s1][1..] == [s1];
    assert Collect(map[], [s0, s1], d) == Collect(m0, [s1], d);
    assert [s1][1..] == [];
  }

  lemma CollectThree(s0: Slot, s1: Slot, s2: Slot, d: int)
    requires d >= MINUTE
    ensures Collect(map[], [s0, s1, s2], d) == Breakdown(s0, d) + Breakdown(s1, d) + Breakdown(s2, d)
  {
    var m0 := map[] + Breakdown(s0, d);
    assert m0 == Breakdown(s0, d);
    assert [s0, s1, s2][1..] == [s1, s2];
    assert Collect(map[], [s0, s1, s2], d) == Collect(m0, [s1, s2], d);
    assert [s1, s2][1..] == [s2];
    assert Collect(m0, [s1, s2], d) == Collect(m0 + Breakdown(s1, d), [s2], d);
    assert [s2][1..] == [];
  }

  /**
   * For one employee with no customer given, the result is one piece list
   * with as many pieces as the day's free slots yield.
   */
  lemma OneEmployeeCount(svc: Service, start: DateTime, end: DateTime, e: M.Employee, bookings: seq<Booking>,
                         today: int, slots: seq<Slot>)
    requires svc.duration >= MINUTE && Date(start) > today && M.ProvidesService(e, svc.id)
    requires Subtract(DaySlots(e, start, end), Bookings(bookings, None)) == slots
    ensures var r := ForServiceSpec(svc, start, end, Some(Staff(e, bookings)), None, [], today);
            r.Ok? && |r.value| == |Collect(map[], slots, svc.duration)|
  {
  }

  /** Two slots on whole minutes, one after the other, give the half-hour pieces of each. */
  lemma TwoPieces(a: Slot, b: Slot)
    requires Aligned(a) && Aligned(b) && a.start <= a.end <= b.start <= b.end
    ensures |Collect(map[], [a, b], 30 * MINUTE)| == Duration(a) / (30 * MINUTE) + Duration(b) / (30 * MINUTE)
  {
    HalfHours(a);
    HalfHours(b);
    UnionSize(Breakdown(a, 30 * MINUTE), Breakdown(b, 30 * MINUTE));
    CollectTwo(a, b, 30 * MINUTE);
  }

  /** Three slots on whole minutes, one after the other, give the half-hour pieces of each. */
  lemma ThreePieces(a: Slot, b: Slot, c: Slot)
    requires Aligned(a) && Aligned(b) && Aligned(c) && a.start <= a.end <= b.start <= b.end <= c.start <= c.end
    ensures |Collect(map[], [a, b, c], 30 * MINUTE)|
            == Duration(a) / (30 * MINUTE) + Duration(b) / (30 * MINUTE) + Duration(c) / (30 * MINUTE)
  {
    var d := 30 * MINUTE;
    HalfHours(a);
    HalfHours(b);
    HalfHours(c);
    UnionSize(Breakdown(a, d), Breakdown(b, d));
    UnionSize(Breakdown(a, d) + Breakdown(b, d), Breakdown(c, d));
    CollectThree(a, b, c, d);
  }

  /** The two Tuesday frame slots hold 8 + 6 half-hour pieces. */
  lemma TuesdayPieces(t: DateTime)
    requires t % DAY == 0
    ensures |Collect(map[], [Slot(t + 9 * HOUR, t + 13 * HOUR), Slot(t + 14 * HOUR, t + 17 * HOUR)], 30 * MINUTE)| == 14
  {
    MinuteShift(t, 9 * 60);
    MinuteShift(t, 13 * 60);
    MinuteShift(t, 14 * 60);
    MinuteShift(t, 17 * 60);
    TwoPieces(Slot(t + 9 * HOUR, t + 13 * HOUR), Slot(t + 14 * HOUR, t + 17 * HOUR));
    assert 14400 / 1800 == 8 && 10800 / 1800 == 6;
  }

  /**
   * With no booking, the Tuesday shift offers 8 + 6 = 14 half-hour pieces
   * between midnight and 23:59.
   */
  lemma FreeTuesday(e: M.Employee, t: DateTime, today: int, svc: Service)
    requires t % DAY == 0 && Weekday(t) == 1 && Date(t) > today
    requires e.schedule.tue.Some? && e.schedule.tue.value.frames == TuesdayFrames
    requires svc.duration == 30 * MINUTE && M.ProvidesService(e, svc.id)
    ensures var r := ForServiceSpec(svc, t, t + 23 * HOUR + 59 * MINUTE, Some(Staff(e, [])), None, [], today);
            r.Ok? && |r.value| == 14
  {
    var slots := [Slot(t + 9 * HOUR, t + 13 * HOUR), Slot(t + 14 * HOUR, t + 17 * HOUR)];
    TuesdaySlots(e, t);
    assert Subtract(slots, Bookings([], None)) == slots;
    OneEmployeeCount(svc, t, t + 23 * HOUR + 59 * MINUTE, e, [], today, slots);
    TuesdayPieces(t);
  }

  /** A booking inside the morning slot splits it and leaves the afternoon slot alone. */
  lemma MorningSplit(t: DateTime, from: DateTime, to: DateTime)
    requires t % DAY == 0
    requires from % MINUTE == 0 && to % MINUTE == 0 && t + 9 * HOUR <= from < to < t + 13 * HOUR
    ensures Subtract([Slot(t + 9 * HOUR, t + 13 * HOUR), Slot(t + 14 * HOUR, t + 17 * HOUR)], [Booking(from, to)])
            == [Slot(t + 9 * HOUR, from), Slot(to, t + 13 * HOUR), Slot(t + 14 * HOUR, t + 17 * HOUR)]
  {
    var a := Booking(from, to);
    var s0 := Slot(t + 9 * HOUR, t + 13 * HOUR);
    var slots := [s0, Slot(t + 14 * HOUR, t + 17 * HOUR)];
    MinuteShift(t, 9 * 60);
    MinuteShift(t, 13 * 60);
    PassOneHit(a, slots, 0);
    StepOutcomes(a, slots, 0);
    assert NewSlot(s0.start, from) == Slot(t + 9 * HOUR, from);
    assert NewSlot(to, s0.end) == Slot(to, t + 13 * HOUR);
    assert Subtract(slots, [a]) == Subtract(Pass(a, slots, 0, slots), []);
  }

  /** The half-hour pieces of the three slots left by a morning booking. */
  lemma MorningCount(t: DateTime, from: DateTime, to: DateTime)
    requires t % DAY == 0
    requires from % MINUTE == 0 && to % MINUTE == 0 && t + 9 * HOUR <= from < to < t + 13 * HOUR
    ensures |Collect(map[], [Slot(t + 9 * HOUR, from), Slot(to, t + 13 * HOUR), Slot(t + 14 * HOUR, t + 17 * HOUR)], 30 * MINUTE)|
            == (from - (t + 9 * HOUR)) / (30 * MINUTE) + (t + 13 * HOUR - to) / (30 * MINUTE) + 6
  {
    MinuteShift(t, 9 * 60);
    MinuteShift(t, 13 * 60);
    MinuteShift(t, 14 * 60);
    MinuteShift(t, 17 * 60);
    ThreePieces(Slot(t + 9 * HOUR, from), Slot(to, t + 13 * HOUR), Slot(t + 14 * HOUR, t + 17 * HOUR));
    assert 10800 / 1800 == 6;
  }

  /**
   * A booking from `from` to `to` inside the 9:00-13:00 frame leaves the
   * half-hour pieces before it, those after it, and the six of the
   * afternoon: a 9:15-9:45 booking leaves 0 + 6 + 6 = 12, a 9:30-10:00
   * booking 1 + 6 + 6 = 13.
   */
  lemma MorningBooking(e: M.Employee, t: DateTime, today: int, svc: Service, from: DateTime, to: DateTime)
    requires t % DAY == 0 && Weekday(t) == 1 && Date(t) > today
    requires e.schedule.tue.Some? && e.schedule.tue.value.frames == TuesdayFrames
    requires svc.duration == 30 * MINUTE && M.ProvidesService(e, svc.id)
    requires from % MINUTE == 0 && to % MINUTE == 0 && t + 9 * HOUR <= from < to < t + 13 * HOUR
    ensures var r := ForServiceSpec(svc, t, t + 23 * HOUR + 59 * MINUTE, Some(Staff(e, [Booking(from, to)])), None, [], today);
            r.Ok? && |r.value| == (from - (t + 9 * HOUR)) / (30 * MINUTE) + (t + 13 * HOUR - to) / (30 * MINUTE) + 6
  {
    TuesdaySlots(e, t);
    MorningSplit(t, from, to);
    MorningCount(t, from, to);
    assert Bookings([Booking(from, to)], None) == [Booking(from, to)];
    OneEmployeeCount(svc, t, t + 23 * HOUR + 59 * MINUTE, e, [Booking(from, to)], today,
                     [Slot(t + 9 * HOUR, from), Slot(to, t + 13 * HOUR), Slot(t + 14 * HOUR, t + 17 * HOUR)]);
  }

  /** The 9:15-9:45 booking of the availability tests leaves 0 + 6 + 6 = 12 pieces. */
  lemma QuarterPastNineBooking(e: M.Employee, t: DateTime, today: int, svc: Service)
    requires t % DAY == 0 && Weekday(t) == 1 && Date(t) > today
    requires e.schedule.tue.Some? && e.schedule.tue.value.frames == TuesdayFrames
    requires svc.duration == 30 * MINUTE && M.ProvidesService(e, svc.id)
    ensures var end := t + 23 * HOUR + 59 * MINUTE;
            var r := ForServiceSpec(svc, t, end, Some(Staff(e, [Booking(t + 555 * MINUTE, t + 585 * MINUTE)])), None, [], today);
            r.Ok? && |r.value| == 12
  {
    MinuteShift(t, 555);
    MinuteShift(t, 585);
    MorningBooking(e, t, today, svc, t + 555 * MINUTE, t + 585 * MINUTE);
    assert t + 555 * MINUTE - (t + 9 * HOUR) == 900 && t + 13 * HOUR - (t + 585 * MINUTE) == 11700;
    assert 900 / 1800 == 0 && 11700 / 1800 == 6;
  }

  /** The 9:30-10:00 booking of the availability tests leaves 1 + 6 + 6 = 13 pieces. */
  lemma HalfPastNineBooking(e: M.Employee, t: DateTime, today: int, svc: Service)
    requires t % DAY == 0 && Weekday(t) == 1 && Date(t) > today
    requires e.schedule.tue.Some? && e.schedule.tue.value.frames == TuesdayFrames
    requires svc.duration == 30 * MINUTE && M.ProvidesService(e, svc.id)
    ensures var end := t + 23 * HOUR + 59 * MINUTE;
            var r := ForServiceSpec(svc, t, end, Some(Staff(e, [Booking(t + 570 * MINUTE, t + 600 * MINUTE)])), None, [], today);
            r.Ok? && |r.value| == 13
  {
    MinuteShift(t, 570);
    MinuteShift(t, 600);
    MorningBooking(e, t, today, svc, t + 570 * MINUTE, t + 600 * MINUTE);
    assert t + 570 * MINUTE - (t + 9 * HOUR) == 1800 && t + 13 * HOUR - (t + 600 * MINUTE) == 10800;
    assert 1800 / 1800 == 1 && 10800 / 1800 == 6;
  }

  /** A date whose weekday has no shift offers nothing. */
  lemma NoShiftNoPieces(e: M.Employee, t: DateTime, today: int, svc: Service)
    requires t % DAY == 0 && Date(t) > today
    requires M.Week(e.schedule)[Weekday(t)].None?
    requires svc.duration >= MINUTE && M.ProvidesService(e, svc.id)
    ensures var r := ForServiceSpec(svc, t, t + 23 * HOUR + 59 * MINUTE, Some(Staff(e, [])), None, [], today);
            r == Ok([])
  {
    assert DaySlots(e, t + DAY, t + 23 * HOUR + 59 * MINUTE) == [];
    assert DaySlots(e, t, t + 23 * HOUR + 59 * MINUTE) == [];
  }
}
