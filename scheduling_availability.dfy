/**
 * The free time of scheduling/availability.py. Slots are truncated to the
 * minute and broken into a list of pieces; a booking only ever splits a slot
 * it lies inside, and the index loop over the slots is bounded by the length
 * the list had before the booking was applied. The frames of a day and the
 * confirmed bookings are given as values.
 */
module SchedulingAvailability {
  import opened DateTimes
  import opened Wrappers
  import opened PyLists
  import M = SchedulingModels

  /** A `Slot`. */
  datatype Slot = Slot(start: DateTime, end: DateTime)

  /** `Slot(start, end)`: both times lose their seconds. */
  function NewSlot(start: DateTime, end: DateTime): (s: Slot)
    ensures s.start % MINUTE == 0 && s.start <= start < s.start + MINUTE
    ensures s.end % MINUTE == 0 && s.end <= end < s.end + MINUTE
  {
    Slot(TruncateMinute(start), TruncateMinute(end))
  }

  /** Both ends on a whole minute, as for every slot the constructor builds. */
  predicate Aligned(s: Slot)
  {
    s.start % MINUTE == 0 && s.end % MINUTE == 0
  }

  predicate AllAligned(slots: seq<Slot>)
  {
    forall s :: s in slots ==> Aligned(s)
  }

  /** `Slot.duration()`. */
  function Duration(s: Slot): int
  {
    s.end - s.start
  }

  /**
   * `Slot.breakdown_slot(d)`: the first piece `[start, start + d]` followed by
   * the pieces of the remainder; a slot exactly `d` long is its own piece, a
   * shorter one gives nothing.
   */
  function Breakdown(s: Slot, d: int): (r: seq<Slot>)
    requires d >= MINUTE && Aligned(s)
    ensures AllAligned(r)
    decreases s.end - s.start
  {
    if Duration(s) > d then
      var breakPoint := s.start + d;
      [NewSlot(s.start, breakPoint)] + Breakdown(NewSlot(breakPoint, s.end), d)
    else if Duration(s) == d then
      [s]
    else
      []
  }

  /** The pieces follow each other without gaps from the slot's start, each `d` long, inside the slot. */
  predicate Contiguous(r: seq<Slot>, s: Slot, d: int)
  {
    (|r| > 0 ==> r[0].start == s.start && r[|r| - 1].end <= s.end) &&
    (forall k :: 0 <= k < |r| ==> Duration(r[k]) == d) &&
    (forall k :: 0 <= k < |r| - 1 ==> r[k].end == r[k + 1].start)
  }

  /** The slot left after the first piece, when `d` is a whole number of minutes. */
  lemma BreakdownUnfold(s: Slot, d: int)
    requires Aligned(s) && d >= MINUTE && d % MINUTE == 0 && Duration(s) > d
    ensures Aligned(Slot(s.start + d, s.end))
    ensures Breakdown(s, d) == [Slot(s.start, s.start + d)] + Breakdown(Slot(s.start + d, s.end), d)
  {
    DivModUnique(s.start + d, MINUTE, s.start / MINUTE + d / MINUTE, 0);
  }

  /**
   * For a slot on whole minutes and a length in whole minutes, the pieces are
   * ⌊duration/d⌋ stretches of exactly `d`, one after the other from the
   * slot's start; a remainder shorter than `d` is dropped.
   */
  lemma {:induction false} BreakdownPieces(s: Slot, d: int)
    requires Aligned(s) && d >= MINUTE && d % MINUTE == 0
    ensures Contiguous(Breakdown(s, d), s, d)
    ensures |Breakdown(s, d)| == if Duration(s) >= 0 then Duration(s) / d else 0
    decreases s.end - s.start
  {
    var n := Duration(s);
    if n > d {
      var rest := Slot(s.start + d, s.end);
      BreakdownUnfold(s, d);
      BreakdownPieces(rest, d);
      var r := Breakdown(rest, d);
      assert Breakdown(s, d) == [Slot(s.start, s.start + d)] + r;
      assert |r| == Duration(rest) / d;
      assert Duration(rest) > 0 && Duration(rest) == n - d;
      QuotientStep(n, d);
      var whole := [Slot(s.start, s.start + d)] + r;
      forall k | 0 <= k < |whole| - 1
        ensures whole[k].end == whole[k + 1].start
      {
        if k > 0 {
          assert whole[k] == r[k - 1] && whole[k + 1] == r[k];
        }
      }
      forall k | 0 <= k < |whole|
        ensures Duration(whole[k]) == d
      {
        if k > 0 {
          assert whole[k] == r[k - 1];
        }
      }
    } else if n == d {
      DivModUnique(d, d, 1, 0);
    } else if n >= 0 {
      DivModUnique(n, d, 0, n);
    }
  }

  /** The test's slot: 9:00 to 17:30 in half hours gives 17 pieces. */
  lemma SeventeenHalfHours(t: DateTime)
    requires t % DAY == 0
    ensures |Breakdown(Slot(t + 9 * HOUR, t + 17 * HOUR + 30 * MINUTE), 30 * MINUTE)| == 17
  {
    var s := Slot(t + 9 * HOUR, t + 17 * HOUR + 30 * MINUTE);
    DivModUnique(s.start, MINUTE, Date(t) * 1440 + 540, 0);
    DivModUnique(s.end, MINUTE, Date(t) * 1440 + 1050, 0);
    BreakdownPieces(s, 30 * MINUTE);
    assert Duration(s) == 30600 && 30600 / 1800 == 17;
  }

  /** `Slot.create_slot(date, start, end)`: the calendar day of `date` at the hours and minutes of the frame times. */
  function CreateSlot(date: DateTime, start: TimeOfDay, end: TimeOfDay): (s: Slot)
    ensures s == Slot(Midnight(date) + TruncateMinute(start), Midnight(date) + TruncateMinute(end))
  {
    NewSlot(ReplaceHourMinute(date, start), ReplaceHourMinute(date, end))
  }

  /** `list(map(lambda x: Slot.create_slot(day, x.start, x.end), frames))`. */
  function FrameSlots(day: DateTime, frames: seq<M.TimeFrame>): (r: seq<Slot>)
    ensures AllAligned(r)
  {
    var r := seq(|frames|, i requires 0 <= i < |frames| => CreateSlot(day, frames[i].start, frames[i].end));
    assert forall s :: s in r ==> Aligned(s) by {
      forall s | s in r ensures Aligned(s) {
        var i :| 0 <= i < |r| && r[i] == s;
        MidnightAligned(day);
      }
    }
    r
  }

  /** A midnight is on a whole minute. */
  lemma MidnightAligned(t: DateTime)
    ensures Midnight(t) % MINUTE == 0
  {
    DivModUnique(Midnight(t), MINUTE, Date(t) * 1440, 0);
  }

  /** The day loop from `day`, stepping a day at a time while `day < end`, adding each day's slots to `acc`. */
  function Days(e: M.Employee, day: DateTime, end: DateTime, acc: seq<Slot>): seq<Slot>
    decreases end - day
  {
    if day < end then Days(e, day + DAY, end, acc + FrameSlots(day, M.EmployeeAvailability(e, day))) else acc
  }

  lemma {:induction false} DaysAligned(e: M.Employee, day: DateTime, end: DateTime, acc: seq<Slot>)
    requires AllAligned(acc)
    ensures AllAligned(Days(e, day, end, acc))
    decreases end - day
  {
    if day < end {
      var fs := FrameSlots(day, M.EmployeeAvailability(e, day));
      assert forall s :: s in acc + fs ==> s in acc || s in fs;
      DaysAligned(e, day + DAY, end, acc + fs);
    }
  }

  /** A confirmed booking, as the loop reads it. */
  datatype Booking = Booking(start: DateTime, end: DateTime)

  /** The slot holds the whole booking. */
  predicate Inside(a: Booking, s: Slot)
  {
    a.start >= s.start && a.end <= s.end
  }

  /** One turn of `for i in range(n)`: the slot now at index `i` is split when the booking lies inside it. */
  function Step(a: Booking, i: nat, slots: seq<Slot>): (r: seq<Slot>)
    requires i < |slots|
    ensures |r| >= |slots|
  {
    var slot := slots[i];
    if Inside(a, slot) then slots[..i] + [NewSlot(slot.start, a.start), NewSlot(a.end, slot.end)] + slots[i + 1..]
    else slots
  }

  /** The turns `i .. n - 1` of one booking; `n` is the length before the booking, fixed once. */
  function Pass(a: Booking, n: nat, i: nat, slots: seq<Slot>): (r: seq<Slot>)
    requires n <= |slots|
    ensures |r| >= |slots|
    decreases n - i
  {
    if i < n then Pass(a, n, i + 1, Step(a, i, slots)) else slots
  }

  /** The outer loop: each booking in turn over the list the previous one left. */
  function Subtract(slots: seq<Slot>, bookings: seq<Booking>): seq<Slot>
    decreases |bookings|
  {
    if bookings == [] then slots else Subtract(Pass(bookings[0], |slots|, 0, slots), bookings[1..])
  }

  lemma StepAligned(a: Booking, i: nat, slots: seq<Slot>)
    requires i < |slots| && AllAligned(slots)
    ensures AllAligned(Step(a, i, slots))
  {
    var slot := slots[i];
    if Inside(a, slot) {
      assert forall s :: s in slots[..i] ==> s in slots;
      assert forall s :: s in slots[i + 1..] ==> s in slots;
    }
  }

  lemma {:induction false} PassAligned(a: Booking, n: nat, i: nat, slots: seq<Slot>)
    requires n <= |slots| && AllAligned(slots)
    ensures AllAligned(Pass(a, n, i, slots))
    decreases n - i
  {
    if i < n {
      StepAligned(a, i, slots);
      PassAligned(a, n, i + 1, Step(a, i, slots));
    }
  }

  lemma {:induction false} SubtractAligned(slots: seq<Slot>, bookings: seq<Booking>)
    requires AllAligned(slots)
    ensures AllAligned(Subtract(slots, bookings))
    decreases |bookings|
  {
    if bookings != [] {
      PassAligned(bookings[0], |slots|, 0, slots);
      SubtractAligned(Pass(bookings[0], |slots|, 0, slots), bookings[1..]);
    }
  }

  /**
   * Only a booking inside the slot changes it: it is replaced by the part
   * before and the part after the booking. A booking that covers the slot, or
   * overlaps only part of it, leaves it as it was.
   */
  lemma StepOutcomes(a: Booking, i: nat, slots: seq<Slot>)
    requires i < |slots|
    ensures Inside(a, slots[i]) ==>
              Step(a, i, slots) == slots[..i] + [NewSlot(slots[i].start, a.start), NewSlot(a.end, slots[i].end)] + slots[i + 1..]
    ensures !Inside(a, slots[i]) ==> Step(a, i, slots) == slots
  {
  }

  /** A booking inside a single slot splits it around itself. */
  lemma SplitSingle(a: Booking, s: Slot)
    requires Aligned(s) && a.start % MINUTE == 0 && a.end % MINUTE == 0 && Inside(a, s)
    ensures Subtract([s], [a]) == [Slot(s.start, a.start), Slot(a.end, s.end)]
  {
    assert Pass(a, 1, 0, [s]) == Pass(a, 1, 1, Step(a, 0, [s]));
  }

  /** A booking covering a slot does not remove it. */
  lemma CoveringKeeps(a: Booking, s: Slot)
    requires a.start < s.start && a.end >= s.end
    ensures Subtract([s], [a]) == [s]
  {
    assert Pass(a, 1, 0, [s]) == Pass(a, 1, 1, Step(a, 0, [s]));
  }

  /**
   * The bound of `range(len(slots))` is read once: after a split the list has
   * grown, so the last slot is never reached. With two copies of a slot and
   * a booking inside it, only the first copy is split.
   */
  lemma FixedBoundSkipsLast(a: Booking, s: Slot)
    requires Aligned(s) && a.start % MINUTE == 0 && a.end % MINUTE == 0 && a.start < a.end && Inside(a, s)
    ensures Subtract([s, s], [a]) == [Slot(s.start, a.start), Slot(a.end, s.end), s]
  {
    var first := [Slot(s.start, a.start), Slot(a.end, s.end), s];
    assert Step(a, 0, [s, s]) == first;
    assert Step(a, 1, first) == first;
    assert Pass(a, 2, 0, [s, s]) == Pass(a, 2, 1, first);
    assert Pass(a, 2, 1, first) == Pass(a, 2, 2, first);
  }

  /** `InvalidActionException` with its message. */
  datatype Error = InvalidAction(message: string)

  const PastDate: string := "Date can't be in the past"
  const NotProvided: string := "Employee doesn't provide the service specified"

  /**
   * `get_availability(employee, start, end)` with `today` the current date and
   * `bookings` the employee's confirmed bookings; it fails exactly when
   * start's date is not after today, and every slot is on whole minutes.
   */
  function GetAvailabilitySpec(e: M.Employee, bookings: seq<Booking>, start: DateTime, end: DateTime, today: int)
    : (r: Result<seq<Slot>, Error>)
    ensures r.Err? <==> Date(start) <= today
    ensures r.Err? ==> r.error == InvalidAction(PastDate)
    ensures r.Ok? ==> AllAligned(r.value)
  {
    if Date(start) <= today then Err(InvalidAction(PastDate))
    else
      DaysAligned(e, start, end, []);
      SubtractAligned(Days(e, start, end, []), bookings);
      Ok(Subtract(Days(e, start, end, []), bookings))
  }

  /** The `while day < end` loop of `get_availability`. */
  method BuildSlots(e: M.Employee, start: DateTime, end: DateTime) returns (slots: seq<Slot>)
    ensures slots == Days(e, start, end, [])
  {
    var day := start;
    slots := [];
    while day < end
      invariant Days(e, day, end, slots) == Days(e, start, end, [])
      decreases end - day
    {
      var frames := M.EmployeeAvailability(e, day);
      slots := slots + FrameSlots(day, frames);
      day := day + DAY;
    }
  }

  /** The booking loops of `get_availability`: the index range is taken before the first split. */
  method CutOut(built: seq<Slot>, appointments: seq<Booking>) returns (slots: seq<Slot>)
    ensures slots == Subtract(built, appointments)
  {
    slots := built;
    var j := 0;
    assert appointments[j..] == appointments;
    while j < |appointments|
      invariant 0 <= j <= |appointments|
      invariant Subtract(slots, appointments[j..]) == Subtract(built, appointments)
    {
      var appointment := appointments[j];
      var n := |slots|;
      ghost var target := Pass(appointment, n, 0, slots);
      assert Subtract(slots, appointments[j..]) == Subtract(target, appointments[j + 1..]) by {
        assert appointments[j..][0] == appointment;
        assert appointments[j..][1..] == appointments[j + 1..];
      }
      var i := 0;
      while i < n
        invariant 0 <= i <= n <= |slots|
        invariant Pass(appointment, n, i, slots) == target
      {
        var slot := slots[i];
        if appointment.start >= slot.start && appointment.end <= slot.end {
          slots := slots[..i] + [NewSlot(slot.start, appointment.start), NewSlot(appointment.end, slot.end)] + slots[i + 1..];
        }
        i := i + 1;
      }
      j := j + 1;
    }
    assert appointments[j..] == [];
  }

  /** `get_availability`: the date check, the day loop, then the booking loops. */
  method GetAvailability(e: M.Employee, bookings: seq<Booking>, start: DateTime, end: DateTime, today: int)
    returns (r: Result<seq<Slot>, Error>)
    ensures r == GetAvailabilitySpec(e, bookings, start, end, today)
  {
    if Date(start) <= today {
      return Err(InvalidAction(PastDate));
    }
    var slots := BuildSlots(e, start, end);
    slots := CutOut(slots, bookings);
    return Ok(slots);
  }

  /** `result.extend(slot.breakdown_slot(d))` for each slot in turn. */
  function Pieces(slots: seq<Slot>, d: int): seq<Slot>
    requires d >= MINUTE && AllAligned(slots)
  {
    if slots == [] then []
    else
      assert slots[0] in slots;
      assert forall s :: s in slots[1..] ==> s in slots;
      Breakdown(slots[0], d) + Pieces(slots[1..], d)
  }

  /**
   * `get_availability_for_service(employee, service, start, end)`: the
   * service check first, then the date check inside `get_availability`.
   */
  function ForServiceSpec(e: M.Employee, service: M.Service, bookings: seq<Booking>, start: DateTime, end: DateTime, today: int)
    : (r: Result<seq<Slot>, Error>)
    requires M.DurationDelta(service) >= MINUTE
    ensures r == Err(InvalidAction(NotProvided)) <==> !M.ProvidesService(e, service.id)
    ensures r == Err(InvalidAction(PastDate)) <==> M.ProvidesService(e, service.id) && Date(start) <= today
    ensures r.Ok? ==> AllAligned(r.value)
  {
    if !M.ProvidesService(e, service.id) then Err(InvalidAction(NotProvided))
    else match GetAvailabilitySpec(e, bookings, start, end, today)
      case Err(err) => Err(err)
      case Ok(slots) =>
        PiecesAligned(slots, M.DurationDelta(service));
        Ok(Pieces(slots, M.DurationDelta(service)))
  }

  lemma {:induction false} PiecesAligned(slots: seq<Slot>, d: int)
    requires d >= MINUTE && AllAligned(slots)
    ensures AllAligned(Pieces(slots, d))
  {
    if slots != [] {
      assert forall s :: s in slots[1..] ==> s in slots;
      PiecesAligned(slots[1..], d);
      var r := Pieces(slots, d);
      assert forall s :: s in r ==> s in Breakdown(slots[0], d) || s in Pieces(slots[1..], d);
    }
  }

  /** `get_availability_for_service`, loop by loop. */
  method GetAvailabilityForService(e: M.Employee, service: M.Service, bookings: seq<Booking>,
                                   start: DateTime, end: DateTime, today: int) returns (r: Result<seq<Slot>, Error>)
    requires M.DurationDelta(service) >= MINUTE
    ensures r == ForServiceSpec(e, service, bookings, start, end, today)
  {
    if !M.ProvidesService(e, service.id) {
      return Err(InvalidAction(NotProvided));
    }
    var available := GetAvailability(e, bookings, start, end, today);
    if available.Err? {
      return Err(available.error);
    }
    var slots := available.value;
    var d := M.DurationDelta(service);
    var result: seq<Slot> := [];
    var k := 0;
    while k < |slots|
      invariant 0 <= k <= |slots|
      invariant AllAligned(slots[k..])
      invariant result + Pieces(slots[k..], d) == Pieces(slots, d)
    {
      assert slots[k..][0] == slots[k];
      assert slots[k..][1..] == slots[k + 1..];
      assert result + Breakdown(slots[k], d) + Pieces(slots[k + 1..], d) == result + (Breakdown(slots[k], d) + Pieces(slots[k + 1..], d));
      result := result + Breakdown(slots[k], d);
      k := k + 1;
    }
    assert slots[k..] == [];
    assert result == Pieces(slots, d);
    assert available.value == GetAvailabilitySpec(e, bookings, start, end, today).value;
    return Ok(result);
  }

  /** For a whole-minute duration, every piece of the result is exactly the service's duration long. */
  lemma {:induction false} PiecesExact(slots: seq<Slot>, d: int)
    requires d >= MINUTE && d % MINUTE == 0 && AllAligned(slots)
    ensures forall k :: 0 <= k < |Pieces(slots, d)| ==> Duration(Pieces(slots, d)[k]) == d
    ensures |Pieces(slots, d)| == Count(slots, d)
  {
    if slots != [] {
      assert slots[0] in slots;
      assert forall s :: s in slots[1..] ==> s in slots;
      BreakdownPieces(slots[0], d);
      PiecesExact(slots[1..], d);
      var b := Breakdown(slots[0], d);
      var rest := Pieces(slots[1..], d);
      assert Pieces(slots, d) == b + rest;
      forall k | 0 <= k < |b + rest|
        ensures Duration((b + rest)[k]) == d
      {
        if k >= |b| {
          assert (b + rest)[k] == rest[k - |b|];
        }
      }
    }
  }

  /** The number of pieces: ⌊duration/d⌋ summed over the slots. */
  function Count(slots: seq<Slot>, d: int): nat
    requires d > 0
  {
    if slots == [] then 0 else (if Duration(slots[0]) >= 0 then Duration(slots[0]) / d else 0) + Count(slots[1..], d)
  }

  /**
   * With the service provided and the date ahead, the result holds, slot
   * after slot, ⌊duration/d⌋ pieces of exactly `d` each.
   */
  lemma ForServicePieces(e: M.Employee, service: M.Service, bookings: seq<Booking>, start: DateTime, end: DateTime, today: int)
    requires M.DurationDelta(service) >= MINUTE && M.DurationDelta(service) % MINUTE == 0
    ensures var r := ForServiceSpec(e, service, bookings, start, end, today);
            r.Ok? ==> |r.value| == Count(GetAvailabilitySpec(e, bookings, start, end, today).value, M.DurationDelta(service)) &&
                      forall k :: 0 <= k < |r.value| ==> Duration(r.value[k]) == M.DurationDelta(service)
  {
    var r := ForServiceSpec(e, service, bookings, start, end, today);
    if r.Ok? {
      PiecesExact(GetAvailabilitySpec(e, bookings, start, end, today).value, M.DurationDelta(service));
    }
  }

  /**
   * The half-hour-offset case of the tests: a Wednesday shift of 9:00 to 17:30
   * with a half-hour booking at 9:15 leaves 15 half-hour pieces.
   */
  lemma HalfTimeOffset(t: DateTime)
    requires t % DAY == 0
    ensures var r := Subtract([Slot(t + 9 * HOUR, t + 17 * HOUR + 30 * MINUTE)], [Booking(t + 9 * HOUR + 15 * MINUTE, t + 9 * HOUR + 45 * MINUTE)]);
            AllAligned(r) && |Pieces(r, 30 * MINUTE)| == 15
  {
    var q := Date(t) * 1440;
    var s := Slot(t + 9 * HOUR, t + 17 * HOUR + 30 * MINUTE);
    var a := Booking(t + 9 * HOUR + 15 * MINUTE, t + 9 * HOUR + 45 * MINUTE);
    DivModUnique(s.start, MINUTE, q + 540, 0);
    DivModUnique(s.end, MINUTE, q + 1050, 0);
    DivModUnique(a.start, MINUTE, q + 555, 0);
    DivModUnique(a.end, MINUTE, q + 585, 0);
    SplitSingle(a, s);
    var parts := [Slot(s.start, a.start), Slot(a.end, s.end)];
    PiecesExact(parts, 30 * MINUTE);
    assert Duration(parts[0]) == 900 && Duration(parts[1]) == 27900;
    assert parts[1..][1..] == [];
    assert Count(parts[1..], 30 * MINUTE) == 27900 / 1800;
    assert 900 / 1800 == 0 && 27900 / 1800 == 15;
  }
}
