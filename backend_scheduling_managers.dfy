/**
 * The managers of backend/scheduling/managers.py. The query methods are
 * filters over the rows of a table, in table order; `create` and
 * `RequestManager.get_current` change a table, which is a class holding the
 * rows.
 */
module BackendSchedulingManagers {
  import opened DateTimes
  import opened Wrappers

  /** An appointment row: its id, its interval and its status ('P' pending, 'A' accepted, 'R' rejected). */
  datatype Appointment = Appointment(id: nat, start: DateTime, end: DateTime, status: char, employeeId: nat, customerId: nat)

  /** `ValidationError` with its message. */
  datatype Error = ValidationError(message: string)

  const PastDate: string := "Date can't be on the past"

  /**
   * `AppointmentManager.create(**kwargs)` with `now` the current time: the
   * start loses its seconds and must then lie strictly after `now`; the new
   * row is `fields` with that start.
   */
  function CreateSpec(fields: Appointment, now: DateTime): (r: Result<Appointment, Error>)
    ensures r.Err? <==> TruncateMinute(fields.start) <= now
    ensures r.Err? ==> r.error == ValidationError(PastDate)
    ensures r.Ok? ==> r.value == fields.(start := TruncateMinute(fields.start)) && r.value.start > now
  {
    var start := TruncateMinute(fields.start);
    if start <= now then Err(ValidationError(PastDate)) else Ok(fields.(start := start))
  }

  /**
   * The comparison uses the truncated start: a start later than `now` but in
   * the same minute is refused.
   */
  lemma SameMinuteRejected(fields: Appointment, now: DateTime)
    requires now < fields.start && fields.start / MINUTE == now / MINUTE
    ensures CreateSpec(fields, now).Err?
  {
    DivModUnique(fields.start, MINUTE, now / MINUTE, fields.start % MINUTE);
  }

  /** The appointment table `create` inserts into. */
  class AppointmentManager {
    var rows: seq<Appointment>

    constructor()
      ensures rows == []
    {
      rows := [];
    }

    /** `create`: the date check, then the insert. */
    method Create(fields: Appointment, now: DateTime) returns (r: Result<Appointment, Error>)
      modifies this
      ensures r == CreateSpec(fields, now)
      ensures rows == if r.Ok? then old(rows) + [r.value] else old(rows)
    {
      var start := TruncateMinute(fields.start);
      if start <= now {
        return Err(ValidationError(PastDate));
      }
      var obj := fields.(start := start);
      rows := rows + [obj];
      return Ok(obj);
    }
  }

  /** `accepted()`: the rows with status 'A'. */
  function Accepted(rows: seq<Appointment>): (r: seq<Appointment>)
    ensures forall a :: a in r <==> a in rows && a.status == 'A'
    ensures |r| <= |rows|
  {
    if rows == [] then []
    else
      var rest := Accepted(rows[1..]);
      assert forall a :: a in rows <==> a == rows[0] || a in rows[1..];
      if rows[0].status == 'A' then [rows[0]] + rest else rest
  }

  /** `requests()`: the rows with status 'P'. */
  function Requests(rows: seq<Appointment>): (r: seq<Appointment>)
    ensures forall a :: a in r <==> a in rows && a.status == 'P'
    ensures |r| <= |rows|
  {
    if rows == [] then []
    else
      var rest := Requests(rows[1..]);
      assert forall a :: a in rows <==> a == rows[0] || a in rows[1..];
      if rows[0].status == 'P' then [rows[0]] + rest else rest
  }

  /** `active()`: every row that is not rejected. */
  function Active(rows: seq<Appointment>): (r: seq<Appointment>)
    ensures forall a :: a in r <==> a in rows && a.status != 'R'
    ensures |r| <= |rows|
  {
    if rows == [] then []
    else
      var rest := Active(rows[1..]);
      assert forall a :: a in rows <==> a == rows[0] || a in rows[1..];
      if rows[0].status != 'R' then [rows[0]] + rest else rest
  }

  /**
   * Accepted and pending rows are active, and no row is both; with only the
   * three statuses, the active rows are exactly the accepted and the pending
   * ones.
   */
  lemma {:induction false} StatusPartition(rows: seq<Appointment>)
    ensures forall a :: a in Accepted(rows) ==> a in Active(rows) && a !in Requests(rows)
    ensures forall a :: a in Requests(rows) ==> a in Active(rows)
    ensures (forall a :: a in rows ==> a.status in {'A', 'P', 'R'}) ==>
              |Active(rows)| == |Accepted(rows)| + |Requests(rows)|
  {
    if rows != [] {
      StatusPartition(rows[1..]);
    }
  }

  /** The three clauses of `overlapping`: starts inside, ends inside, or encloses the range. */
  predicate Clauses(a: Appointment, start: DateTime, end: DateTime)
  {
    (a.start >= start && a.start < end) ||
    (a.end > start && a.end <= end) ||
    (a.start <= start && a.end >= end)
  }

  /** The `exclude_id` filter; it applies only when the id is truthy. */
  predicate Kept(a: Appointment, excludeId: Option<nat>)
  {
    !(excludeId.Some? && excludeId.value != 0 && a.id == excludeId.value)
  }

  /**
   * `overlapping(start, end, exclude_id, **kwargs)`: the active rows meeting
   * one of the three clauses, without the excluded id, that also satisfy the
   * further filters `extra`.
   */
  function Overlapping(rows: seq<Appointment>, start: DateTime, end: DateTime, excludeId: Option<nat>,
                       extra: Appointment -> bool): (r: seq<Appointment>)
    ensures forall a :: a in r <==> a in rows && a.status != 'R' && Clauses(a, start, end) && Kept(a, excludeId) && extra(a)
    ensures |r| <= |rows|
  {
    if rows == [] then []
    else
      var rest := Overlapping(rows[1..], start, end, excludeId, extra);
      var a := rows[0];
      assert forall b :: b in rows <==> b == a || b in rows[1..];
      if a.status != 'R' && Clauses(a, start, end) && Kept(a, excludeId) && extra(a) then [a] + rest else rest
  }

  /**
   * For a non-empty range and a non-empty appointment, the three clauses say
   * exactly that the two intervals share time.
   */
  lemma ClausesMeanShared(a: Appointment, start: DateTime, end: DateTime)
    requires start < end && a.start < a.end
    ensures Clauses(a, start, end) <==> a.start < end && a.end > start
  {
  }

  /**
   * An active appointment is reported exactly when it shares time with the
   * range; one that only touches it, ending at its start or starting at its
   * end, is not.
   */
  lemma OverlappingShared(rows: seq<Appointment>, start: DateTime, end: DateTime, a: Appointment)
    requires start < end && a.start < a.end && a in rows && a.status != 'R'
    ensures a in Overlapping(rows, start, end, None, _ => true) <==> a.start < end && a.end > start
    ensures a.end == start || a.start == end ==> a !in Overlapping(rows, start, end, None, _ => true)
  {
    ClausesMeanShared(a, start, end);
  }

  /** Excluding an id drops that row and keeps the others; an id of 0 excludes nothing. */
  lemma ExcludeId(rows: seq<Appointment>, start: DateTime, end: DateTime, id: nat, extra: Appointment -> bool)
    ensures forall a :: a in Overlapping(rows, start, end, Some(id), extra) <==>
                        a in Overlapping(rows, start, end, None, extra) && (id == 0 || a.id != id)
  {
  }

  /** A shopping request row. */
  datatype Request = Request(id: nat, ownerId: nat, userId: nat, complete: bool, scheduledDate: int, lastUpdated: DateTime)

  /** The index of the first incomplete request of `owner` for `user`, if any. */
  function FirstIncomplete(rows: seq<Request>, owner: nat, user: nat): (r: Option<nat>)
    ensures r.Some? ==> r.value < |rows| && rows[r.value].ownerId == owner && rows[r.value].userId == user &&
                        !rows[r.value].complete
    ensures r.Some? ==> forall j :: 0 <= j < r.value ==> !(rows[j].ownerId == owner && rows[j].userId == user && !rows[j].complete)
    ensures r.None? <==> forall j :: 0 <= j < |rows| ==> !(rows[j].ownerId == owner && rows[j].userId == user && !rows[j].complete)
    decreases |rows|
  {
    if rows == [] then None
    else if rows[0].ownerId == owner && rows[0].userId == user && !rows[0].complete then Some(0)
    else match FirstIncomplete(rows[1..], owner, user)
      case None => None
      case Some(i) => Some(i + 1)
  }

  /**
   * `get_current(owner_id, user_id)` on a table whose next id is `nextId`,
   * with `today` and `now` the current date and time: the result and the
   * new table.
   */
  function GetCurrentSpec(rows: seq<Request>, nextId: nat, owner: nat, user: nat, today: int, now: DateTime)
    : (r: (Request, seq<Request>))
    ensures r.0.ownerId == owner && r.0.userId == user && !r.0.complete
    ensures r.0 in r.1
    ensures r.1 == rows || r.1 == rows + [Request(nextId, owner, user, false, today, now)]
    ensures FirstIncomplete(rows, owner, user).Some? ==>
              r == (rows[FirstIncomplete(rows, owner, user).value], rows)
    ensures FirstIncomplete(rows, owner, user).None? ==>
              r == (Request(nextId, owner, user, false, today, now), rows + [Request(nextId, owner, user, false, today, now)])
  {
    match FirstIncomplete(rows, owner, user)
    case Some(i) => (rows[i], rows)
    case None =>
      var created := Request(nextId, owner, user, false, today, now);
      (created, rows + [created])
  }

  /**
   * A second `get_current` for the same owner and user returns the same
   * request and creates nothing.
   */
  lemma GetCurrentIdempotent(rows: seq<Request>, nextId: nat, owner: nat, user: nat, today: int, now: DateTime,
                             nextId': nat, today': int, now': DateTime)
    ensures var (first, after) := GetCurrentSpec(rows, nextId, owner, user, today, now);
            GetCurrentSpec(after, nextId', owner, user, today', now') == (first, after)
  {
    var (first, after) := GetCurrentSpec(rows, nextId, owner, user, today, now);
    if FirstIncomplete(rows, owner, user).None? {
      var i := FirstIncomplete(after, owner, user);
      assert after[|rows|] == first;
      assert i.Some? && i.value == |rows|;
    }
  }

  /** The request table; `nextId` stands for the database's id sequence. */
  class RequestManager {
    var rows: seq<Request>
    var nextId: nat

    constructor()
      ensures rows == [] && nextId == 0
    {
      rows := [];
      nextId := 0;
    }

    /** `get_current`: return the first incomplete request, or create one dated today. */
    method GetCurrent(owner: nat, user: nat, today: int, now: DateTime) returns (r: Request)
      modifies this
      ensures (r, rows) == GetCurrentSpec(old(rows), old(nextId), owner, user, today, now)
      ensures nextId == if rows == old(rows) then old(nextId) else old(nextId) + 1
    {
      var current := FirstIncomplete(rows, owner, user);
      if current.Some? {
        return rows[current.value];
      }
      r := Request(nextId, owner, user, false, today, now);
      rows := rows + [r];
      nextId := nextId + 1;
    }
  }

  /** Twenty minutes. */
  const IdleSpan: int := 20 * MINUTE

  /** `get_idle()` with `now` the current time: the incomplete requests untouched for at least twenty minutes. */
  function GetIdle(rows: seq<Request>, now: DateTime): (r: seq<Request>)
    ensures forall q :: q in r <==> q in rows && !q.complete && q.lastUpdated <= now - IdleSpan
    ensures |r| <= |rows|
  {
    if rows == [] then []
    else
      var rest := GetIdle(rows[1..], now);
      assert forall q :: q in rows <==> q == rows[0] || q in rows[1..];
      if !rows[0].complete && rows[0].lastUpdated <= now - IdleSpan then [rows[0]] + rest else rest
  }

  /** A request that is idle stays idle as time passes, and a fresh one is not idle. */
  lemma IdleStaysIdle(rows: seq<Request>, now: DateTime, later: DateTime, q: Request)
    requires now <= later
    ensures q in GetIdle(rows, now) ==> q in GetIdle(rows, later)
    ensures q.lastUpdated > now - IdleSpan ==> q !in GetIdle(rows, now)
  {
  }
}
