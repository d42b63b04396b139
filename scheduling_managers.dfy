/**
 * The managers of scheduling/managers.py: `AppointmentManager.create`, which
 * truncates the start, runs the date, service and availability checks in that
 * order and inserts the appointment only when all pass, and
 * `CustomerManager.all`. The appointment table is a sequence of rows.
 */
module SchedulingManagers {
  import opened DateTimes
  import opened Wrappers
  import M = SchedulingModels

  /** `ModelCreationFailedException` with its message. */
  datatype Error = ModelCreationFailed(message: string)

  const PastDate: string := "Date can't be on the past"
  const NotProvided: string := "Employee doesn't provide this service"
  const NoTime: string := "No time available for the date selected"

  /**
   * `AppointmentManager.create(employee=e, service=service, customer=…,
   * start=start)` against the table `rows`, with `today` the current date. The
   * first failing check decides the error; on success the new row starts at
   * the truncated start and ends, by `Appointment.end()`, where the checked
   * interval ends, and that interval fits a frame and clashes with none of
   * the employee's appointments of that day.
   */
  function CreateSpec(rows: seq<M.Appointment>, e: M.Employee, service: M.Service, customerId: nat,
                      start: DateTime, today: int): (r: Result<M.Appointment, Error>)
    ensures var s := TruncateMinute(start);
            var end := s + HoursMinutes(service.duration);
            && (r == Err(ModelCreationFailed(PastDate)) <==> Date(start) <= today)
            && (r == Err(ModelCreationFailed(NotProvided)) <==> Date(start) > today && !M.ProvidesService(e, service.id))
            && (r == Err(ModelCreationFailed(NoTime)) <==>
                  Date(start) > today && M.ProvidesService(e, service.id) && !M.IsAvailable(e, rows, s, end))
            && (r.Ok? <==> Date(start) > today && M.ProvidesService(e, service.id) && M.IsAvailable(e, rows, s, end))
    ensures r.Ok? ==> r.value == M.Appointment(TruncateMinute(start), e.id, customerId, service)
                      && M.End(r.value) == TruncateMinute(start) + HoursMinutes(service.duration)
    ensures r.Ok? ==> !exists a :: a in rows && a.employeeId == e.id && Date(a.start) == Date(start) &&
                                   M.Clashes(a, r.value.start, M.End(r.value))
  {
    var s := TruncateMinute(start);
    var end := s + HoursMinutes(service.duration);
    TruncateSameDate(start);
    if Date(s) <= today then Err(ModelCreationFailed(PastDate))
    else if !M.ProvidesService(e, service.id) then Err(ModelCreationFailed(NotProvided))
    else if !M.IsAvailable(e, rows, s, end) then Err(ModelCreationFailed(NoTime))
    else Ok(M.Appointment(s, e.id, customerId, service))
  }

  /** The appointment table that `AppointmentManager.create` inserts into. */
  class AppointmentManager {
    var rows: seq<M.Appointment>

    constructor()
      ensures rows == []
    {
      rows := [];
    }

    /** `create`: the guards in order, then the insert. */
    method Create(e: M.Employee, service: M.Service, customerId: nat, start: DateTime, today: int)
      returns (r: Result<M.Appointment, Error>)
      modifies this
      ensures r == CreateSpec(old(rows), e, service, customerId, start, today)
      ensures rows == if r.Ok? then old(rows) + [r.value] else old(rows)
    {
      var s := TruncateMinute(start);
      var end := s + HoursMinutes(service.duration);
      TruncateSameDate(start);
      if Date(s) <= today {
        return Err(ModelCreationFailed(PastDate));
      }
      if !M.ProvidesService(e, service.id) {
        return Err(ModelCreationFailed(NotProvided));
      }
      if !M.IsAvailable(e, rows, s, end) {
        return Err(ModelCreationFailed(NoTime));
      }
      var a := M.Appointment(s, e.id, customerId, service);
      rows := rows + [a];
      return Ok(a);
    }
  }

  /**
   * Once an appointment of at least a minute is in the table, a second one
   * with the same employee, service and start is refused for lack of time.
   */
  lemma DoubleBookingRejected(rows: seq<M.Appointment>, e: M.Employee, service: M.Service,
                              first: nat, second: nat, start: DateTime, today: int)
    requires service.duration >= MINUTE
    requires CreateSpec(rows, e, service, first, start, today).Ok?
    ensures var a := CreateSpec(rows, e, service, first, start, today).value;
            CreateSpec(rows + [a], e, service, second, start, today) == Err(ModelCreationFailed(NoTime))
  {
    var a := CreateSpec(rows, e, service, first, start, today).value;
    M.SameStartOverlaps(e, rows + [a], a, a.start + HoursMinutes(service.duration));
  }

  /**
   * A booking that starts when the previous one ends is accepted, as long as
   * it fits a frame: touching is not a clash.
   */
  lemma BackToBackAccepted(e: M.Employee, service: M.Service, first: nat, second: nat, start: DateTime, today: int)
    requires service.duration >= MINUTE
    requires CreateSpec([], e, service, first, start, today).Ok?
    requires var next := M.End(CreateSpec([], e, service, first, start, today).value);
             M.HasAvailability(e, next, next + HoursMinutes(service.duration))
    ensures var a := CreateSpec([], e, service, first, start, today).value;
            CreateSpec([a], e, service, second, M.End(a), today).Ok?
  {
    var a := CreateSpec([], e, service, first, start, today).value;
    var next := M.End(a);
    DivModUnique(next, MINUTE, a.start / MINUTE + HoursMinutes(service.duration) / MINUTE, 0);
    assert TruncateMinute(next) == next;
    DateMonotone(a.start, next);
    TruncateSameDate(start);
    M.DisjointNotOverlapping(e, [a], next, next + HoursMinutes(service.duration));
  }

  /**
   * A half-hour booking at 9:00 refuses another at 9:29, one minute before
   * it ends.
   */
  lemma MinuteBeforeEndRejected(e: M.Employee, service: M.Service, first: nat, second: nat, t: DateTime, today: int)
    requires t % DAY == 0 && service.duration == 30 * MINUTE
    requires CreateSpec([], e, service, first, t + 9 * HOUR, today).Ok?
    ensures var a := CreateSpec([], e, service, first, t + 9 * HOUR, today).value;
            CreateSpec([a], e, service, second, t + 9 * HOUR + 29 * MINUTE, today) == Err(ModelCreationFailed(NoTime))
  {
    var s := t + 9 * HOUR;
    var later := s + 29 * MINUTE;
    var a := CreateSpec([], e, service, first, s, today).value;
    NineTwentyNine(t);
    assert HoursMinutes(service.duration) == 30 * MINUTE;
    M.StartInsideOverlaps(e, [a], a, later, later + 30 * MINUTE);
    OverlapRejected([a], e, service, second, later, today);
  }

  /** 9:00 and 9:29 of a day are on whole minutes and on the same date. */
  lemma NineTwentyNine(t: DateTime)
    requires t % DAY == 0
    ensures TruncateMinute(t + 9 * HOUR) == t + 9 * HOUR
    ensures TruncateMinute(t + 9 * HOUR + 29 * MINUTE) == t + 9 * HOUR + 29 * MINUTE
    ensures Date(t + 9 * HOUR + 29 * MINUTE) == Date(t + 9 * HOUR) == Date(t)
  {
    DivModUnique(t + 9 * HOUR, MINUTE, t / MINUTE + 540, 0);
    DivModUnique(t + 9 * HOUR + 29 * MINUTE, MINUTE, t / MINUTE + 569, 0);
    DivModUnique(t + 9 * HOUR, DAY, Date(t), 9 * HOUR);
    DivModUnique(t + 9 * HOUR + 29 * MINUTE, DAY, Date(t), 9 * HOUR + 29 * MINUTE);
  }

  /**
   * A future booking of a service the employee provides is refused for lack
   * of time whenever its interval overlaps a booking of that day.
   */
  lemma OverlapRejected(rows: seq<M.Appointment>, e: M.Employee, service: M.Service, customerId: nat,
                        start: DateTime, today: int)
    requires Date(start) > today && M.ProvidesService(e, service.id)
    requires M.IsOverlapping(e, rows, TruncateMinute(start), TruncateMinute(start) + HoursMinutes(service.duration))
    ensures CreateSpec(rows, e, service, customerId, start, today) == Err(ModelCreationFailed(NoTime))
  {
    TruncateSameDate(start);
  }

  /** A `User` row as `CustomerManager.all` reads it. */
  datatype User = User(id: nat, isStaff: bool, isSuperuser: bool)

  /** `CustomerManager.all()`: the users that are neither staff nor superusers, in table order. */
  function AllCustomers(users: seq<User>): (r: seq<User>)
    ensures forall u :: u in r <==> u in users && !u.isStaff && !u.isSuperuser
    ensures |r| <= |users|
  {
    if users == [] then []
    else
      var rest := AllCustomers(users[1..]);
      assert forall u :: u in users <==> u == users[0] || u in users[1..];
      if !users[0].isStaff && !users[0].isSuperuser then [users[0]] + rest else rest
  }

  /** Filtering the customers again changes nothing. */
  lemma {:induction false} AllCustomersIdempotent(users: seq<User>)
    ensures AllCustomers(AllCustomers(users)) == AllCustomers(users)
  {
    if users != [] {
      AllCustomersIdempotent(users[1..]);
      var rest := AllCustomers(users[1..]);
      if !users[0].isStaff && !users[0].isSuperuser {
        assert ([users[0]] + rest)[1..] == rest;
      }
    }
  }
}
