/**
 * The booking rules of scheduling/models.py: which time frames an employee's
 * schedule offers on a date, when a booking fits a frame, when it clashes
 * with a booking already made, and where a booking ends. Database lookups
 * (`timeframe_set`, `appointment_set`, `services`) are given as values.
 */
module SchedulingModels {
  import opened DateTimes
  import opened Wrappers

  /** A `TimeFrame` of a shift. */
  datatype TimeFrame = TimeFrame(start: TimeOfDay, end: TimeOfDay)

  /** A `Shift` with the frames of its `timeframe_set`. */
  datatype Shift = Shift(name: string, frames: seq<TimeFrame>)

  /** A weekly `Schedule`: one optional shift per weekday. */
  datatype Schedule = Schedule(
    mon: Option<Shift>, tue: Option<Shift>, wed: Option<Shift>, thu: Option<Shift>,
    fri: Option<Shift>, sat: Option<Shift>, sun: Option<Shift>)

  /** The seven shifts of a schedule, Monday first. */
  function Week(s: Schedule): (w: seq<Option<Shift>>)
    ensures |w| == 7
  {
    [s.mon, s.tue, s.wed, s.thu, s.fri, s.sat, s.sun]
  }

  /** The if/elif chain of `Schedule.get_availability` on `dayofweek`. */
  function ShiftOn(s: Schedule, dayofweek: int): (r: Option<Shift>)
    ensures 0 <= dayofweek < 7 ==> r == Week(s)[dayofweek]
    ensures !(0 <= dayofweek <= 5) ==> r == s.sun
  {
    if dayofweek == 0 then s.mon
    else if dayofweek == 1 then s.tue
    else if dayofweek == 2 then s.wed
    else if dayofweek == 3 then s.thu
    else if dayofweek == 4 then s.fri
    else if dayofweek == 5 then s.sat
    else s.sun
  }

  /** `Schedule.get_availability(date)`: the frames of the shift for the date's weekday, none without one. */
  function ScheduleAvailability(s: Schedule, date: DateTime): (frames: seq<TimeFrame>)
    ensures Week(s)[Weekday(date)].None? ==> frames == []
    ensures Week(s)[Weekday(date)].Some? ==> frames == Week(s)[Weekday(date)].value.frames
  {
    match ShiftOn(s, Weekday(date))
    case None => []
    case Some(shift) => shift.frames
  }

  /** The frames offered on a date are offered again a week later. */
  lemma ScheduleWeekly(s: Schedule, date: DateTime, weeks: nat)
    ensures ScheduleAvailability(s, date + weeks * 7 * DAY) == ScheduleAvailability(s, date)
  {
    WeekdayPeriodic(date, weeks);
  }

  /** A `Service`; `duration` is a time of day read as a length. */
  datatype Service = Service(id: nat, name: string, duration: TimeOfDay)

  /** `Service.duration_delta()`: the duration, seconds included, as a span. */
  function DurationDelta(s: Service): int
  {
    s.duration
  }

  /** An `Employee`: its schedule and the ids of the services it offers. */
  datatype Employee = Employee(id: nat, schedule: Schedule, services: set<nat>)

  /** `Employee.provides_service(service)`: only the service's id is looked up. */
  predicate ProvidesService(e: Employee, serviceId: nat)
  {
    serviceId in e.services
  }

  /** `Employee.get_availability(date)`. */
  function EmployeeAvailability(e: Employee, date: DateTime): seq<TimeFrame>
  {
    ScheduleAvailability(e.schedule, date)
  }

  /** An `Appointment` row. */
  datatype Appointment = Appointment(start: DateTime, employeeId: nat, customerId: nat, service: Service)

  /**
   * `Appointment.end()`: start plus the hours and minutes of the service
   * duration; the seconds of the duration are dropped.
   */
  function End(a: Appointment): (e: DateTime)
    ensures a.start <= e <= a.start + DurationDelta(a.service) < e + MINUTE
    ensures (e - a.start) % MINUTE == 0
  {
    a.start + HoursMinutes(a.service.duration)
  }

  /** For a duration in whole minutes, the end is the start plus `duration_delta()`. */
  lemma EndIsDurationDelta(a: Appointment)
    requires a.service.duration % MINUTE == 0
    ensures End(a) == a.start + DurationDelta(a.service)
  {
  }

  /** The frame loop of `__has_availability__`: does some frame hold both times of day? */
  function FitsSomeFrame(frames: seq<TimeFrame>, start: DateTime, end: DateTime): (b: bool)
    ensures b <==> exists i :: 0 <= i < |frames| && frames[i].start <= TimeOf(start) && TimeOf(end) <= frames[i].end
  {
    if frames == [] then false
    else if TimeOf(start) >= frames[0].start && TimeOf(end) <= frames[0].end then true
    else
      var rest := FitsSomeFrame(frames[1..], start, end);
      assert forall i :: 0 <= i < |frames| - 1 ==> frames[1..][i] == frames[i + 1];
      rest
  }

  /** `Employee.__has_availability__(start, end)`: the frames of start's date. */
  function HasAvailability(e: Employee, start: DateTime, end: DateTime): bool
  {
    FitsSomeFrame(EmployeeAvailability(e, Midnight(start)), start, end)
  }

  /**
   * The `appointment_set` filter of `__is_overlapping__`: the appointments of
   * the employee that start on the same calendar day as `start`.
   */
  function SameDay(apps: seq<Appointment>, e: Employee, start: DateTime): (r: seq<Appointment>)
    ensures forall a :: a in r <==> a in apps && a.employeeId == e.id && Date(a.start) == Date(start)
  {
    if apps == [] then []
    else
      var rest := SameDay(apps[1..], e, start);
      assert forall a :: a in apps <==> a == apps[0] || a in apps[1..];
      if apps[0].employeeId == e.id && Date(apps[0].start) == Date(start) then [apps[0]] + rest else rest
  }

  /** One step of the appointment loop: the new start or the new end falls into `a`. */
  predicate Clashes(a: Appointment, start: DateTime, end: DateTime)
  {
    (a.start <= start < End(a)) || (a.start < end <= End(a))
  }

  /** The appointment loop of `__is_overlapping__`, returning at the first clash. */
  function AnyClash(apps: seq<Appointment>, start: DateTime, end: DateTime): (b: bool)
    ensures b <==> exists a :: a in apps && Clashes(a, start, end)
  {
    if apps == [] then false
    else if apps[0].start <= start < End(apps[0]) then assert Clashes(apps[0], start, end); true
    else if apps[0].start < end <= End(apps[0]) then assert Clashes(apps[0], start, end); true
    else
      var rest := AnyClash(apps[1..], start, end);
      assert forall a :: a in apps <==> a == apps[0] || a in apps[1..];
      rest
  }

  /** `Employee.__is_overlapping__(start, end)`; `apps` is the appointment table. */
  function IsOverlapping(e: Employee, apps: seq<Appointment>, start: DateTime, end: DateTime): bool
  {
    AnyClash(SameDay(apps, e, start), start, end)
  }

  /**
   * `Employee.is_available(start, end)`: some frame of start's date holds both
   * times of day, and no appointment of the employee on that date clashes.
   */
  function IsAvailable(e: Employee, apps: seq<Appointment>, start: DateTime, end: DateTime): (b: bool)
    ensures b <==>
      (exists i :: 0 <= i < |EmployeeAvailability(e, Midnight(start))| &&
         EmployeeAvailability(e, Midnight(start))[i].start <= TimeOf(start) &&
         TimeOf(end) <= EmployeeAvailability(e, Midnight(start))[i].end) &&
      !(exists a :: a in apps && a.employeeId == e.id && Date(a.start) == Date(start) && Clashes(a, start, end))
  {
    HasAvailability(e, start, end) && !IsOverlapping(e, apps, start, end)
  }

  /** The frames looked up for `start.date()` are those of start's weekday. */
  lemma MidnightSameFrames(e: Employee, start: DateTime)
    ensures EmployeeAvailability(e, Midnight(start)) == EmployeeAvailability(e, start)
  {
  }

  /**
   * A booking that shares no time with any same-day booking of the employee
   * is not an overlap; in particular a booking that starts where another ends,
   * or ends where another starts, is accepted.
   */
  lemma DisjointNotOverlapping(e: Employee, apps: seq<Appointment>, start: DateTime, end: DateTime)
    requires start < end
    requires forall a :: a in apps && a.employeeId == e.id && Date(a.start) == Date(start) ==>
               End(a) <= start || end <= a.start
    ensures !IsOverlapping(e, apps, start, end)
  {
  }

  /** Every reported overlap shares time with the new booking. */
  lemma OverlapShares(e: Employee, apps: seq<Appointment>, start: DateTime, end: DateTime)
    requires start < end && IsOverlapping(e, apps, start, end)
    ensures exists a :: a in apps && a.employeeId == e.id && a.start < end && start < End(a)
  {
    var a :| a in SameDay(apps, e, start) && Clashes(a, start, end);
  }

  /** A booking at the same start as an existing booking of at least a minute overlaps it. */
  lemma SameStartOverlaps(e: Employee, apps: seq<Appointment>, a: Appointment, end: DateTime)
    requires a in apps && a.employeeId == e.id && a.service.duration >= MINUTE
    ensures IsOverlapping(e, apps, a.start, end)
  {
    assert a in SameDay(apps, e, a.start);
    assert Clashes(a, a.start, end);
  }

  /** A booking that starts inside an existing booking of the same employee and day overlaps it. */
  lemma StartInsideOverlaps(e: Employee, apps: seq<Appointment>, a: Appointment, start: DateTime, end: DateTime)
    requires a in apps && a.employeeId == e.id && Date(a.start) == Date(start) && a.start <= start < End(a)
    ensures IsOverlapping(e, apps, start, end)
  {
    assert a in SameDay(apps, e, start);
    assert Clashes(a, start, end);
  }

  /**
   * The two clauses look only at the new start and the new end, so a booking
   * that encloses an existing one is not reported: an existing 10:00 booking
   * of 30 minutes against a new 9:00 to 11:00 booking the same day.
   */
  lemma EnclosingBookingMissed(e: Employee, svc: Service)
    requires svc.duration == 30 * MINUTE
    ensures var a := Appointment(10 * HOUR, e.id, 0, svc);
            !IsOverlapping(e, [a], 9 * HOUR, 11 * HOUR) && a.start < 11 * HOUR && 9 * HOUR < End(a)
  {
    var a := Appointment(10 * HOUR, e.id, 0, svc);
    assert End(a) == 10 * HOUR + 30 * MINUTE;
    assert SameDay([a], e, 9 * HOUR) == [a];
  }

  /**
   * A schedule with no Monday shift and a Tuesday shift of 9:00-13:00 and
   * 14:00-17:00 offers no frame on a Monday and those two frames on a Tuesday.
   */
  lemma TuesdayShiftExample(s: Schedule, monday: DateTime)
    requires Weekday(monday) == 0 && s.mon.None?
    requires s.tue == Some(Shift("day", [TimeFrame(9 * HOUR, 13 * HOUR), TimeFrame(14 * HOUR, 17 * HOUR)]))
    ensures |ScheduleAvailability(s, monday)| == 0
    ensures ScheduleAvailability(s, monday + DAY) == [TimeFrame(9 * HOUR, 13 * HOUR), TimeFrame(14 * HOUR, 17 * HOUR)]
  {
    NextDay(monday);
  }
}
