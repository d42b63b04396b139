/**
 * The single-day free time of scheduling/utility.py. Its `Slot` class is the
 * one of scheduling/availability.py, so the slots, their breakdown and the
 * exception are taken from there. A booking splits every slot it starts at or
 * after, whatever the slot's end, and the index range is again read once per
 * booking.
 */
module SchedulingUtility {
  import opened DateTimes
  import opened Wrappers
  import M = SchedulingModels
  import SA = SchedulingAvailability

  /** One turn of `for i in range(n)`: split the slot now at `i` when the booking starts at or after the slot's start. */
  function Step(a: M.Appointment, i: nat, slots: seq<SA.Slot>): (r: seq<SA.Slot>)
    requires i < |slots|
    ensures |r| >= |slots|
  {
    var slot := slots[i];
    if a.start >= slot.start then slots[..i] + [SA.NewSlot(slot.start, a.start), SA.NewSlot(M.End(a), slot.end)] + slots[i + 1..]
    else slots
  }

  /** The turns `i .. n - 1` for one appointment; `n` is the length before it. */
  function Pass(a: M.Appointment, n: nat, i: nat, slots: seq<SA.Slot>): (r: seq<SA.Slot>)
    requires n <= |slots|
    ensures |r| >= |slots|
    decreases n - i
  {
    if i < n then Pass(a, n, i + 1, Step(a, i, slots)) else slots
  }

  /** The outer loop over the appointments. */
  function Subtract(slots: seq<SA.Slot>, apps: seq<M.Appointment>): seq<SA.Slot>
    decreases |apps|
  {
    if apps == [] then slots else Subtract(Pass(apps[0], |slots|, 0, slots), apps[1..])
  }

  lemma StepAligned(a: M.Appointment, i: nat, slots: seq<SA.Slot>)
    requires i < |slots| && SA.AllAligned(slots)
    ensures SA.AllAligned(Step(a, i, slots))
  {
    if a.start >= slots[i].start {
      assert forall s :: s in slots[..i] ==> s in slots;
      assert forall s :: s in slots[i + 1..] ==> s in slots;
    }
  }

  lemma {:induction false} PassAligned(a: M.Appointment, n: nat, i: nat, slots: seq<SA.Slot>)
    requires n <= |slots| && SA.AllAligned(slots)
    ensures SA.AllAligned(Pass(a, n, i, slots))
    decreases n - i
  {
    if i < n {
      StepAligned(a, i, slots);
      PassAligned(a, n, i + 1, Step(a, i, slots));
    }
  }

  lemma {:induction false} SubtractAligned(slots: seq<SA.Slot>, apps: seq<M.Appointment>)
    requires SA.AllAligned(slots)
    ensures SA.AllAligned(Subtract(slots, apps))
    decreases |apps|
  {
    if apps != [] {
      PassAligned(apps[0], |slots|, 0, slots);
      SubtractAligned(Pass(apps[0], |slots|, 0, slots), apps[1..]);
    }
  }

  /**
   * Only the start is compared: a slot is split around the appointment
   * exactly when the appointment starts at or after the slot's start, even
   * when the slot ends before the appointment begins.
   */
  lemma StepOutcomes(a: M.Appointment, i: nat, slots: seq<SA.Slot>)
    requires i < |slots|
    ensures a.start >= slots[i].start ==>
              Step(a, i, slots) == slots[..i] + [SA.NewSlot(slots[i].start, a.start), SA.NewSlot(M.End(a), slots[i].end)] + slots[i + 1..]
    ensures a.start < slots[i].start ==> Step(a, i, slots) == slots
  {
  }

  /**
   * A Tuesday with frames 9:00-13:00 and 14:00-17:00 and a half-hour booking
   * at 15:30: the morning slot, which ends before the booking, is split into
   * 9:00-15:30 and 16:00-13:00, and the afternoon slot, pushed past the fixed
   * index range, is never looked at.
   */
  lemma BreakShiftQuirk(t: DateTime, svc: M.Service, employeeId: nat, customerId: nat)
    requires t % DAY == 0 && svc.duration == 30 * MINUTE
    ensures var morning := SA.Slot(t + 9 * HOUR, t + 13 * HOUR);
            var afternoon := SA.Slot(t + 14 * HOUR, t + 17 * HOUR);
            var a := M.Appointment(t + 15 * HOUR + 30 * MINUTE, employeeId, customerId, svc);
            Subtract([morning, afternoon], [a]) ==
              [SA.Slot(t + 9 * HOUR, t + 15 * HOUR + 30 * MINUTE), SA.Slot(t + 16 * HOUR, t + 13 * HOUR), afternoon]
  {
    var q := Date(t) * 1440;
    var morning := SA.Slot(t + 9 * HOUR, t + 13 * HOUR);
    var afternoon := SA.Slot(t + 14 * HOUR, t + 17 * HOUR);
    var a := M.Appointment(t + 15 * HOUR + 30 * MINUTE, employeeId, customerId, svc);
    DivModUnique(morning.start, MINUTE, q + 540, 0);
    DivModUnique(morning.end, MINUTE, q + 780, 0);
    DivModUnique(a.start, MINUTE, q + 930, 0);
    assert M.End(a) == t + 16 * HOUR;
    DivModUnique(M.End(a), MINUTE, q + 960, 0);
    var split := [SA.Slot(t + 9 * HOUR, t + 15 * HOUR + 30 * MINUTE), SA.Slot(t + 16 * HOUR, t + 13 * HOUR), afternoon];
    assert Step(a, 0, [morning, afternoon]) == split;
    assert Step(a, 1, split) == split;
    assert Pass(a, 2, 0, [morning, afternoon]) == Pass(a, 2, 1, split);
    assert Pass(a, 2, 1, split) == Pass(a, 2, 2, split);
  }

  /**
   * `get_availability(employee, date_time)` with `today` the current date and
   * `apps` the appointment table: the frames of the date become slots, the
   * date check comes after them, and the employee's appointments starting on
   * that calendar day are cut out.
   */
  function GetAvailabilitySpec(e: M.Employee, apps: seq<M.Appointment>, dateTime: DateTime, today: int)
    : (r: Result<seq<SA.Slot>, SA.Error>)
    ensures r.Err? <==> Date(dateTime) <= today
    ensures r.Err? ==> r.error == SA.InvalidAction(SA.PastDate)
    ensures r.Ok? ==> SA.AllAligned(r.value)
  {
    var slots := SA.FrameSlots(dateTime, M.EmployeeAvailability(e, dateTime));
    if Date(dateTime) <= today then Err(SA.InvalidAction(SA.PastDate))
    else
      SubtractAligned(slots, M.SameDay(apps, e, dateTime));
      Ok(Subtract(slots, M.SameDay(apps, e, dateTime)))
  }

  /** `get_availability`, with its appointment loops. */
  method GetAvailability(e: M.Employee, apps: seq<M.Appointment>, dateTime: DateTime, today: int)
    returns (r: Result<seq<SA.Slot>, SA.Error>)
    ensures r == GetAvailabilitySpec(e, apps, dateTime, today)
  {
    var frames := M.EmployeeAvailability(e, dateTime);
    var appointments := M.SameDay(apps, e, dateTime);
    var slots := SA.FrameSlots(dateTime, frames);
    if Date(dateTime) <= today {
      return Err(SA.InvalidAction(SA.PastDate));
    }
    ghost var built := slots;
    var j := 0;
    assert appointments[j..] == appointments;
    while j < |appointments|
      invariant 0 <= j <= |appointments|
      invariant Subtract(slots, appointments[j..]) == Subtract(built, appointments)
    {
      var appointment := appointments[j];
      var n := |slots|;
      ghost var target := Pass(appointment, n, 0, slots);
      assert Subtract(slots, appointments[j..]) == Subtract(target, appointments[j + 1..]) by {
        assert appointments[j..][0] == appointment;
        assert appointments[j..][1..] == appointments[j + 1..];
      }
      var i := 0;
      while i < n
        invariant 0 <= i <= n <= |slots|
        invariant Pass(appointment, n, i, slots) == target
      {
        var slot := slots[i];
        if appointment.start >= slot.start {
          slots := slots[..i] + [SA.NewSlot(slot.start, appointment.start), SA.NewSlot(M.End(appointment), slot.end)] + slots[i + 1..];
        }
        i := i + 1;
      }
      j := j + 1;
    }
    assert appointments[j..] == [];
    return Ok(slots);
  }

  /**
   * `get_availability_for_service(employee, date_time, service)`: the
   * service check first, then the day's slots broken into pieces of the
   * service's duration.
   */
  function ForServiceSpec(e: M.Employee, apps: seq<M.Appointment>, dateTime: DateTime, service: M.Service, today: int)
    : (r: Result<seq<SA.Slot>, SA.Error>)
    requires M.DurationDelta(service) >= MINUTE
    ensures r == Err(SA.InvalidAction(SA.NotProvided)) <==> !M.ProvidesService(e, service.id)
    ensures r == Err(SA.InvalidAction(SA.PastDate)) <==> M.ProvidesService(e, service.id) && Date(dateTime) <= today
    ensures r.Ok? ==> SA.AllAligned(r.value)
  {
    if !M.ProvidesService(e, service.id) then Err(SA.InvalidAction(SA.NotProvided))
    else match GetAvailabilitySpec(e, apps, dateTime, today)
      case Err(err) => Err(err)
      case Ok(slots) =>
        SA.PiecesAligned(slots, M.DurationDelta(service));
        Ok(SA.Pieces(slots, M.DurationDelta(service)))
  }

  /** `get_availability_for_service`, with its loop over the slots. */
  method GetAvailabilityForService(e: M.Employee, apps: seq<M.Appointment>, dateTime: DateTime, service: M.Service, today: int)
    returns (r: Result<seq<SA.Slot>, SA.Error>)
    requires M.DurationDelta(service) >= MINUTE
    ensures r == ForServiceSpec(e, apps, dateTime, service, today)
  {
    if !M.ProvidesService(e, service.id) {
      return Err(SA.InvalidAction(SA.NotProvided));
    }
    var available := GetAvailability(e, apps, dateTime, today);
    if available.Err? {
      return Err(available.error);
    }
    var slots := available.value;
    var d := M.DurationDelta(service);
    var result: seq<SA.Slot> := [];
    var k := 0;
    while k < |slots|
      invariant 0 <= k <= |slots|
      invariant SA.AllAligned(slots[k..])
      invariant result + SA.Pieces(slots[k..], d) == SA.Pieces(slots, d)
    {
      assert slots[k..][0] == slots[k];
      assert slots[k..][1..] == slots[k + 1..];
      assert result + SA.Breakdown(slots[k], d) + SA.Pieces(slots[k + 1..], d) ==
             result + (SA.Breakdown(slots[k], d) + SA.Pieces(slots[k + 1..], d));
      result := result + SA.Breakdown(slots[k], d);
      k := k + 1;
    }
    assert slots[k..] == [];
    assert result == SA.Pieces(slots, d);
    return Ok(result);
  }

  /** For a whole-minute duration every piece offered is exactly the service's duration long. */
  lemma ForServiceExact(e: M.Employee, apps: seq<M.Appointment>, dateTime: DateTime, service: M.Service, today: int)
    requires M.DurationDelta(service) >= MINUTE && M.DurationDelta(service) % MINUTE == 0
    ensures var r := ForServiceSpec(e, apps, dateTime, service, today);
            r.Ok? ==> forall k :: 0 <= k < |r.value| ==> SA.Duration(r.value[k]) == M.DurationDelta(service)
  {
    var r := ForServiceSpec(e, apps, dateTime, service, today);
    if r.Ok? {
      SA.PiecesExact(GetAvailabilitySpec(e, apps, dateTime, today).value, M.DurationDelta(service));
    }
  }

  /**
   * A free day with one frame of 9:00 to 17:30, ahead of today, offers 17
   * half-hour pieces.
   */
  lemma FreeDaySeventeen(e: M.Employee, dateTime: DateTime, service: M.Service, today: int)
    requires dateTime % DAY == 0 && Date(dateTime) > today
    requires M.EmployeeAvailability(e, dateTime) == [M.TimeFrame(9 * HOUR, 17 * HOUR + 30 * MINUTE)]
    requires service.duration == 30 * MINUTE && M.ProvidesService(e, service.id)
    ensures var r := ForServiceSpec(e, [], dateTime, service, today);
            r.Ok? && |r.value| == 17
  {
    var s := SA.Slot(dateTime + 9 * HOUR, dateTime + 17 * HOUR + 30 * MINUTE);
    assert TruncateMinute(9 * HOUR) == 9 * HOUR && TruncateMinute(17 * HOUR + 30 * MINUTE) == 17 * HOUR + 30 * MINUTE;
    assert Midnight(dateTime) == dateTime;
    assert SA.FrameSlots(dateTime, M.EmployeeAvailability(e, dateTime)) == [s];
    assert M.SameDay([], e, dateTime) == [];
    SA.SeventeenHalfHours(dateTime);
    assert [s][1..] == [];
    assert SA.Pieces([s], 30 * MINUTE) == SA.Breakdown(s, 30 * MINUTE);
  }
}
