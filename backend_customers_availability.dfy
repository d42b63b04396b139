/**
 * The free time of backend/customers/models.py. It differs from the older
 * customers module in four ways: slot times are kept as given (no
 * truncation), a start in the past is moved to now, only frame slots that
 * begin after that start are kept, and a covering booking removes the slot
 * object itself rather than the entry at the loop index. Object identity is
 * modelled by a reference number given to every slot when it is created.
 */
module BackendCustomersAvailability {
  import opened DateTimes
  import opened Wrappers
  import opened PyLists
  import M = SchedulingModels

  /** A `Slot` object: its times, as given, and its identity. */
  datatype Slot = Slot(start: DateTime, end: DateTime, ref: nat)

  /** A piece of `breakdown_slot`; pieces are never compared by identity. */
  datatype Piece = Piece(start: DateTime, end: DateTime)

  /** `Slot.duration()`. */
  function Duration(s: Slot): int
  {
    s.end - s.start
  }

  /**
   * `Slot.breakdown_slot(d)` of a slot from `start` to `end`: the first piece
   * is `[start, start + d]`, the rest comes from the remainder; a slot exactly
   * `d` long is its own piece, a shorter one gives nothing.
   */
  function Breakdown(start: DateTime, end: DateTime, d: int): (m: map<DateTime, Piece>)
    requires d > 0
    ensures forall k :: k in m ==> start <= k && m[k].start == k && m[k].end <= end
    decreases end - start
  {
    if end - start > d then
      map[start := Piece(start, start + d)] + Breakdown(start + d, end, d)
    else if end - start == d then
      map[start := Piece(start, end)]
    else
      map[]
  }

  /** `k` starts a stretch of `d` inside `[start, end]`, a whole number of `d` after `start`. */
  predicate PieceStart(start: DateTime, end: DateTime, d: int, k: int)
    requires d > 0
  {
    start <= k && k + d <= end && (k - start) % d == 0
  }

  lemma {:induction false} BreakdownKeys(start: DateTime, end: DateTime, d: int)
    requires d > 0
    ensures forall k :: k in Breakdown(start, end, d) <==> PieceStart(start, end, d, k)
    decreases end - start
  {
    if end - start > d {
      BreakdownKeys(start + d, end, d);
      forall k
        ensures k in Breakdown(start, end, d) <==> PieceStart(start, end, d, k)
      {
        assert k in Breakdown(start, end, d) <==> k == start || k in Breakdown(start + d, end, d);
        MultipleStep(k, start, d);
      }
    } else if end - start == d {
      forall k
        ensures k in Breakdown(start, end, d) <==> PieceStart(start, end, d, k)
      {
        MultipleStep(k, start, d);
      }
    }
  }

  lemma {:induction false} BreakdownPieces(start: DateTime, end: DateTime, d: int)
    requires d > 0
    ensures forall k :: k in Breakdown(start, end, d) ==> Breakdown(start, end, d)[k] == Piece(k, k + d)
    decreases end - start
  {
    if end - start > d {
      BreakdownPieces(start + d, end, d);
    }
  }

  /** The length of the stretch from `start` to `end`. */
  function Span(start: DateTime, end: DateTime): int
  {
    end - start
  }

  /** One piece more than the remainder has. */
  lemma BreakdownCountStep(start: DateTime, end: DateTime, d: int)
    requires 0 < d < end - start
    requires |Breakdown(start + d, end, d)| == Span(start + d, end) / d
    ensures |Breakdown(start, end, d)| == Span(start, end) / d
  {
    var m := Breakdown(start + d, end, d);
    assert |Breakdown(start, end, d)| == |m| + 1 by {
      assert start !in m.Keys;
      assert Breakdown(start, end, d).Keys == {start} + m.Keys;
    }
    QuotientStep(Span(start, end), d);
  }

  lemma {:induction false} BreakdownCount(start: DateTime, end: DateTime, d: int)
    requires d > 0
    ensures |Breakdown(start, end, d)| == if Span(start, end) >= 0 then Span(start, end) / d else 0
    decreases end - start
  {
    var n := Span(start, end);
    if n > d {
      BreakdownCount(start + d, end, d);
      BreakdownCountStep(start, end, d);
    } else if n == d {
      assert |Breakdown(start, end, d)| == 1 by {
        assert Breakdown(start, end, d).Keys == {start};
      }
      DivModUnique(d, d, 1, 0);
    } else if n >= 0 {
      assert Breakdown(start, end, d) == map[];
      DivModUnique(n, d, 0, n);
    }
  }

  /**
   * For any positive length, the pieces are exactly the stretches
   * `[start + k·d, start + (k+1)·d]` that fit in the slot, keyed by their
   * start; there are ⌊duration/d⌋ of them and a remainder shorter than `d`
   * is dropped.
   */
  lemma BreakdownExact(start: DateTime, end: DateTime, d: int)
    requires d > 0
    ensures forall k :: k in Breakdown(start, end, d) <==> PieceStart(start, end, d, k)
    ensures forall k :: k in Breakdown(start, end, d) ==> Breakdown(start, end, d)[k] == Piece(k, k + d)
    ensures |Breakdown(start, end, d)| == if Span(start, end) >= 0 then Span(start, end) / d else 0
  {
    BreakdownKeys(start, end, d);
    BreakdownPieces(start, end, d);
    BreakdownCount(start, end, d);
  }

  /**
   * `Slot.create_slot(date, start, end)` for the object numbered `ref`: the
   * day of `date` at the hours and minutes of the frame times. The day loop
   * passes midnights, where this is midnight plus those hours and minutes.
   */
  function CreateSlot(date: DateTime, start: TimeOfDay, end: TimeOfDay, ref: nat): (s: Slot)
    ensures date % DAY == 0 ==> s == Slot(date + TruncateMinute(start), date + TruncateMinute(end), ref)
  {
    var s := Slot(ReplaceHourMinute(date, start), ReplaceHourMinute(date, end), ref);
    if date % DAY == 0 then
      assert date % MINUTE == 0 by {
        assert DAY == 1440 * MINUTE;
        ModOfMod(date, 1440, MINUTE);
      }
      s
    else s
  }

  /** The list comprehension over one day's frames; the objects get the numbers from `next` on. */
  function FrameSlots(day: DateTime, frames: seq<M.TimeFrame>, next: nat): (r: seq<Slot>)
    ensures |r| == |frames| && forall i :: 0 <= i < |r| ==> r[i].ref == next + i
  {
    seq(|frames|, i requires 0 <= i < |frames| => CreateSlot(day, frames[i].start, frames[i].end, next + i))
  }

  /** `[slot for slot in frame_slots if slot.start > start]`. */
  function Later(slots: seq<Slot>, start: DateTime): (r: seq<Slot>)
    ensures forall s :: s in r <==> s in slots && s.start > start
  {
    if slots == [] then []
    else
      var rest := Later(slots[1..], start);
      assert forall s :: s in slots <==> s == slots[0] || s in slots[1..];
      if slots[0].start > start then [slots[0]] + rest else rest
  }

  /** The slot list together with the number the next new slot object gets. */
  datatype Built = Built(slots: seq<Slot>, next: nat)

  /** One turn of the day loop: the day's frame slots that begin after `start` are added, numbered from `acc.next`. */
  function DayStep(e: M.Employee, day: DateTime, start: DateTime, acc: Built): Built
  {
    var frames := M.EmployeeAvailability(e, day);
    Built(acc.slots + Later(FrameSlots(day, frames, acc.next), start), acc.next + |frames|)
  }

  /** The day loop from midnight `day`, adding to `acc` the kept slots of each day while `day < end`. */
  function Days(e: M.Employee, day: DateTime, end: DateTime, start: DateTime, acc: Built): Built
    decreases end - day
  {
    if day < end then Days(e, day + DAY, end, start, DayStep(e, day, start, acc)) else acc
  }

  /** No two slot objects in the list are the same object. */
  predicate Unique(slots: seq<Slot>)
  {
    forall i, j :: 0 <= i < j < |slots| ==> slots[i].ref != slots[j].ref
  }

  /** Every object in the list is distinct and numbered below `next`. */
  predicate Fresh(b: Built)
  {
    Unique(b.slots) && forall s :: s in b.slots ==> s.ref < b.next
  }

  /** Every slot starts after `start`. */
  predicate AllAfter(slots: seq<Slot>, start: DateTime)
  {
    forall s :: s in slots ==> s.start > start
  }

  /** Two lists of distinct objects with no object in common concatenate to one. */
  lemma UniqueConcat(a: seq<Slot>, b: seq<Slot>)
    requires Unique(a) && Unique(b)
    requires forall x, y :: x in a && y in b ==> x.ref != y.ref
    ensures Unique(a + b)
  {
    forall i, j | 0 <= i < j < |a + b|
      ensures (a + b)[i].ref != (a + b)[j].ref
    {
      if j < |a| {
      } else if i >= |a| {
        assert (a + b)[i] == b[i - |a|] && (a + b)[j] == b[j - |a|];
      } else {
        assert (a + b)[i] in a && (a + b)[j] in b;
      }
    }
  }

  /** The slots kept from one day's frames are distinct, numbered from `next`, and start after `start`. */
  lemma DayKept(day: DateTime, frames: seq<M.TimeFrame>, next: nat, start: DateTime)
    ensures var kept := Later(FrameSlots(day, frames, next), start);
            Unique(kept) && AllAfter(kept, start) && forall s :: s in kept ==> next <= s.ref < next + |frames|
  {
    var fs := FrameSlots(day, frames, next);
    LaterUnique(fs, start);
    forall s | s in Later(fs, start)
      ensures next <= s.ref < next + |frames|
    {
      var i :| 0 <= i < |fs| && fs[i] == s;
    }
  }

  /** The day loop adds distinct new objects, all starting after `start`. */
  lemma {:induction false} DaysFresh(e: M.Employee, day: DateTime, end: DateTime, start: DateTime, acc: Built)
    requires Fresh(acc) && AllAfter(acc.slots, start)
    ensures Fresh(Days(e, day, end, start, acc)) && AllAfter(Days(e, day, end, start, acc).slots, start)
    decreases end - day
  {
    if day < end {
      DayFresh(e, day, start, acc);
      DaysFresh(e, day + DAY, end, start, DayStep(e, day, start, acc));
    }
  }

  /** One day of the loop keeps the list fresh and every slot after `start`. */
  lemma DayFresh(e: M.Employee, day: DateTime, start: DateTime, acc: Built)
    requires Fresh(acc) && AllAfter(acc.slots, start)
    ensures Fresh(DayStep(e, day, start, acc)) && AllAfter(DayStep(e, day, start, acc).slots, start)
  {
    var frames := M.EmployeeAvailability(e, day);
    var kept := Later(FrameSlots(day, frames, acc.next), start);
    var all := acc.slots + kept;
    DayKept(day, frames, acc.next, start);
    assert Unique(all) by {
      assert forall x, y :: x in acc.slots && y in kept ==> x.ref < acc.next <= y.ref;
      UniqueConcat(acc.slots, kept);
    }
    assert forall s :: s in all ==> s in acc.slots || s in kept;
  }

  /** The list comprehension keeps objects distinct. */
  lemma {:induction false} LaterUnique(slots: seq<Slot>, start: DateTime)
    requires Unique(slots)
    ensures Unique(Later(slots, start))
  {
    if slots != [] {
      LaterUnique(slots[1..], start);
      var rest := Later(slots[1..], start);
      if slots[0].start > start {
        forall y | y in rest
          ensures slots[0].ref != y.ref
        {
          var k :| 0 <= k < |slots[1..]| && slots[1..][k] == y;
          assert y == slots[k + 1];
        }
        UniqueConcat([slots[0]], rest);
      }
    }
  }

  /** A confirmed booking, as the loop reads it. */
  datatype Booking = Booking(start: DateTime, end: DateTime)

  predicate Covers(a: Booking, s: Slot)
  {
    a.start <= s.start && a.end >= s.end
  }

  predicate Inside(a: Booking, s: Slot)
  {
    a.start >= s.start && a.end <= s.end
  }

  /** `[x for x in slots if x != slot]`: `Slot` has no `__eq__`, so `!=` compares identity. */
  function Without(slots: seq<Slot>, ref: nat): (r: seq<Slot>)
    ensures forall s :: s in r <==> s in slots && s.ref != ref
    ensures |r| <= |slots|
  {
    if slots == [] then []
    else
      var rest := Without(slots[1..], ref);
      assert forall s :: s in slots <==> s == slots[0] || s in slots[1..];
      if slots[0].ref != ref then [slots[0]] + rest else rest
  }

  lemma {:induction false} WithoutUnique(slots: seq<Slot>, ref: nat)
    requires Unique(slots)
    ensures Unique(Without(slots, ref))
  {
    if slots != [] {
      WithoutUnique(slots[1..], ref);
      var rest := Without(slots[1..], ref);
      if slots[0].ref != ref {
        forall y | y in rest
          ensures slots[0].ref != y.ref
        {
          var k :| 0 <= k < |slots[1..]| && slots[1..][k] == y;
          assert y == slots[k + 1];
        }
        UniqueConcat([slots[0]], rest);
      }
    }
  }

  /** In a list of distinct objects, removing an object removes exactly its one entry. */
  lemma {:induction false} WithoutAt(slots: seq<Slot>, j: nat)
    requires Unique(slots) && j < |slots|
    ensures Without(slots, slots[j].ref) == slots[..j] + slots[j + 1..]
  {
    var ref := slots[j].ref;
    UniqueTail(slots);
    if j == 0 {
      WithoutAbsent(slots[1..], ref);
      assert slots[..0] + slots[1..] == slots[1..];
    } else {
      assert slots[1..][j - 1] == slots[j];
      WithoutAt(slots[1..], j - 1);
      assert Without(slots, ref) == [slots[0]] + Without(slots[1..], ref);
      SpliceCons(slots, j);
    }
  }

  /** The tail of a list of distinct objects is distinct, and does not hold the head. */
  lemma UniqueTail(xs: seq<Slot>)
    requires Unique(xs) && xs != []
    ensures Unique(xs[1..]) && forall s :: s in xs[1..] ==> s.ref != xs[0].ref
  {
    forall s | s in xs[1..]
      ensures s.ref != xs[0].ref
    {
      var k :| 0 <= k < |xs[1..]| && xs[1..][k] == s;
      assert s == xs[k + 1];
    }
    forall i, j | 0 <= i < j < |xs[1..]|
      ensures xs[1..][i].ref != xs[1..][j].ref
    {
      assert xs[1..][i] == xs[i + 1] && xs[1..][j] == xs[j + 1];
    }
  }

  /** Dropping entry `j` of a list is keeping the head and dropping entry `j - 1` of the tail. */
  lemma SpliceCons<T>(xs: seq<T>, j: nat)
    requires 0 < j < |xs|
    ensures [xs[0]] + (xs[1..][..j - 1] + xs[1..][j..]) == xs[..j] + xs[j + 1..]
  {
    assert xs[1..][..j - 1] == xs[1..j];
    assert xs[1..][j..] == xs[j + 1..];
    assert xs[..j] == [xs[0]] + xs[1..j];
  }

  /** After dropping entry `j`, the first `j` entries and everything from `j + 1` on. */
  lemma SlicesAfterRemoval<T>(xs: seq<T>, j: nat)
    requires j + 1 < |xs|
    ensures Take(xs[..j] + xs[j + 1..], j) == xs[..j]
    ensures Drop(xs[..j] + xs[j + 1..], j + 1) == xs[j + 2..]
  {
    var removed := xs[..j] + xs[j + 1..];
    assert removed[..j] == xs[..j];
    assert removed[j + 1..] == xs[j + 2..];
  }

  /** Removing an object that is not in the list changes nothing. */
  lemma {:induction false} WithoutAbsent(slots: seq<Slot>, ref: nat)
    requires forall s :: s in slots ==> s.ref != ref
    ensures Without(slots, ref) == slots
  {
    if slots != [] {
      WithoutAbsent(slots[1..], ref);
    }
  }

  /**
   * One turn of `for i, slot in enumerate(snapshot)`: a covering booking
   * removes the object `slot` wherever it now is; a booking inside `slot`
   * replaces the entry at index `i` of the current list by two new objects.
   */
  function Step(a: Booking, slot: Slot, i: nat, b: Built): Built
  {
    var removed := if Covers(a, slot) then Without(b.slots, slot.ref) else b.slots;
    if Inside(a, slot) then
      Built(Take(removed, i) + [Slot(slot.start, a.start, b.next), Slot(a.end, slot.end, b.next + 1)] + Drop(removed, i + 1),
            b.next + 2)
    else Built(removed, b.next)
  }

  /** The inner loop over one booking, from index `i` of the snapshot on. */
  function Pass(a: Booking, snapshot: seq<Slot>, i: nat, b: Built): Built
    decreases |snapshot| - i
  {
    if i < |snapshot| then Pass(a, snapshot, i + 1, Step(a, snapshot[i], i, b)) else b
  }


  /** The outer loop: each booking in turn, over the list the previous one left. */
  function Subtract(b: Built, bookings: seq<Booking>): Built
    decreases |bookings|
  {
    if bookings == [] then b else Subtract(Pass(bookings[0], b.slots, 0, b), bookings[1..])
  }

  /** A booking that does not end before it starts. */
  predicate WellFormed(bookings: seq<Booking>)
  {
    forall a :: a in bookings ==> a.start <= a.end
  }

  /** The entries before and after index `i` of a list of distinct objects are distinct and share no object. */
  lemma UniqueParts(xs: seq<Slot>, i: nat)
    requires Unique(xs) && i < |xs|
    ensures Unique(xs[..i]) && Unique(xs[i + 1..])
    ensures forall x, y :: x in xs[..i] && y in xs[i + 1..] ==> x.ref != y.ref
  {
    var left := xs[..i];
    var right := xs[i + 1..];
    assert forall p :: 0 <= p < |right| ==> right[p] == xs[p + i + 1];
    forall x, y | x in left && y in right
      ensures x.ref != y.ref
    {
      var p :| 0 <= p < |left| && left[p] == x;
      var q :| 0 <= q < |right| && right[q] == y;
      assert y == xs[q + i + 1];
    }
  }

  /** Replacing the entry at `i` by new objects keeps the objects distinct. */
  lemma UniqueSplice(xs: seq<Slot>, i: nat, pieces: seq<Slot>)
    requires Unique(xs) && Unique(pieces)
    requires forall x, y :: x in xs && y in pieces ==> x.ref != y.ref
    ensures Unique(Take(xs, i) + pieces + Drop(xs, i + 1))
  {
    if i < |xs| {
      UniqueParts(xs, i);
      assert forall x :: x in xs[..i] ==> x in xs;
      assert forall x :: x in xs[i + 1..] ==> x in xs;
      UniqueConcat(xs[..i], pieces);
      UniqueConcat(xs[..i] + pieces, xs[i + 1..]);
    } else {
      UniqueConcat(xs, pieces);
      assert Take(xs, i) + pieces + Drop(xs, i + 1) == xs + pieces;
    }
  }

  /** The list a covering booking leaves: distinct objects from the list. */
  lemma RemovedFacts(a: Booking, slot: Slot, b: Built)
    requires Unique(b.slots)
    ensures var removed := if Covers(a, slot) then Without(b.slots, slot.ref) else b.slots;
            Unique(removed) && forall x :: x in removed ==> x in b.slots
  {
    if Covers(a, slot) {
      WithoutUnique(b.slots, slot.ref);
    }
  }

  /** The spliced list holds only entries of the list and the new pieces. */
  lemma SpliceMembers(xs: seq<Slot>, i: nat, pieces: seq<Slot>)
    ensures forall x :: x in Take(xs, i) + pieces + Drop(xs, i + 1) ==> x in xs || x in pieces
  {
    SliceMembers(xs, i);
    SliceMembers(xs, i + 1);
  }

  /** A turn keeps the objects distinct and numbered below `next`, and every slot after `start`. */
  lemma StepKeeps(a: Booking, slot: Slot, i: nat, b: Built, start: DateTime)
    requires Fresh(b)
    ensures Fresh(Step(a, slot, i, b))
    ensures AllAfter(b.slots, start) && slot.start > start && a.start <= a.end ==> AllAfter(Step(a, slot, i, b).slots, start)
  {
    var removed := if Covers(a, slot) then Without(b.slots, slot.ref) else b.slots;
    RemovedFacts(a, slot, b);
    if Inside(a, slot) {
      SpliceKeeps(removed, i, [Slot(slot.start, a.start, b.next), Slot(a.end, slot.end, b.next + 1)], b.next, start);
    }
  }

  /** Splicing two new objects numbered `next` and `next + 1` into a fresh list gives a fresh list. */
  lemma SpliceKeeps(xs: seq<Slot>, i: nat, pieces: seq<Slot>, next: nat, start: DateTime)
    requires Unique(xs) && forall x :: x in xs ==> x.ref < next
    requires |pieces| == 2 && pieces[0].ref == next && pieces[1].ref == next + 1
    ensures Fresh(Built(Take(xs, i) + pieces + Drop(xs, i + 1), next + 2))
    ensures AllAfter(xs, start) && AllAfter(pieces, start) ==> AllAfter(Take(xs, i) + pieces + Drop(xs, i + 1), start)
  {
    assert Unique(pieces);
    UniqueSplice(xs, i, pieces);
    SpliceMembers(xs, i, pieces);
  }

  lemma {:induction false} PassKeeps(a: Booking, snapshot: seq<Slot>, i: nat, b: Built, start: DateTime)
    requires Fresh(b)
    ensures Fresh(Pass(a, snapshot, i, b))
    ensures AllAfter(b.slots, start) && AllAfter(snapshot, start) && a.start <= a.end ==>
              AllAfter(Pass(a, snapshot, i, b).slots, start)
    decreases |snapshot| - i
  {
    if i < |snapshot| {
      StepKeeps(a, snapshot[i], i, b, start);
      PassKeeps(a, snapshot, i + 1, Step(a, snapshot[i], i, b), start);
    }
  }

  /** Cutting bookings out keeps objects distinct and, for well-formed bookings, every slot after `start`. */
  lemma {:induction false} SubtractKeeps(b: Built, bookings: seq<Booking>, start: DateTime)
    requires Fresh(b)
    ensures Fresh(Subtract(b, bookings))
    ensures AllAfter(b.slots, start) && WellFormed(bookings) ==> AllAfter(Subtract(b, bookings).slots, start)
    decreases |bookings|
  {
    if bookings != [] {
      PassKeeps(bookings[0], b.slots, 0, b, start);
      SubtractKeeps(Pass(bookings[0], b.slots, 0, b), bookings[1..], start);
    }
  }

  /**
   * What the turn at index `j` does when entry `j` of the current list is the
   * snapshot's slot: a covering booking removes that object, a booking
   * inside it splits it around the booking into two new objects, any other
   * booking leaves it. A booking with the slot's exact bounds is both: the
   * object is removed, and the split then replaces the next slot, which is lost.
   */
  lemma StepOutcomes(a: Booking, b: Built, j: nat)
    requires Fresh(b) && j < |b.slots|
    ensures var s := b.slots[j];
            Covers(a, s) && !Inside(a, s) ==> Step(a, s, j, b) == Built(b.slots[..j] + b.slots[j + 1..], b.next)
    ensures var s := b.slots[j];
            Inside(a, s) && !Covers(a, s) ==>
              Step(a, s, j, b).slots == b.slots[..j] + [Slot(s.start, a.start, b.next), Slot(a.end, s.end, b.next + 1)] + b.slots[j + 1..]
    ensures var s := b.slots[j];
            !Covers(a, s) && !Inside(a, s) ==> Step(a, s, j, b) == b
    ensures var s := b.slots[j];
            Covers(a, s) && Inside(a, s) && j + 1 < |b.slots| ==>
              Step(a, s, j, b).slots == b.slots[..j] + [Slot(s.start, s.start, b.next), Slot(s.end, s.end, b.next + 1)] + b.slots[j + 2..]
  {
    var s := b.slots[j];
    if Covers(a, s) && !Inside(a, s) {
      StepCovered(a, b, j);
    } else if Covers(a, s) && j + 1 < |b.slots| {
      StepExact(a, b, j);
    } else if Inside(a, s) && !Covers(a, s) {
      StepInside(a, b, j);
    }
  }

  lemma StepCovered(a: Booking, b: Built, j: nat)
    requires Unique(b.slots) && j < |b.slots| && Covers(a, b.slots[j]) && !Inside(a, b.slots[j])
    ensures Step(a, b.slots[j], j, b) == Built(b.slots[..j] + b.slots[j + 1..], b.next)
  {
    WithoutAt(b.slots, j);
  }

  lemma StepInside(a: Booking, b: Built, j: nat)
    requires j < |b.slots| && Inside(a, b.slots[j]) && !Covers(a, b.slots[j])
    ensures var s := b.slots[j];
            Step(a, s, j, b).slots == b.slots[..j] + [Slot(s.start, a.start, b.next), Slot(a.end, s.end, b.next + 1)] + b.slots[j + 1..]
  {
  }

  lemma StepExact(a: Booking, b: Built, j: nat)
    requires Unique(b.slots) && j + 1 < |b.slots| && Covers(a, b.slots[j]) && Inside(a, b.slots[j])
    ensures var s := b.slots[j];
            Step(a, s, j, b).slots == b.slots[..j] + [Slot(s.start, s.start, b.next), Slot(s.end, s.end, b.next + 1)] + b.slots[j + 2..]
  {
    var s := b.slots[j];
    assert a.start == s.start && a.end == s.end;
    RemovedSlices(b.slots, j);
  }

  /** Removing the object at `j` from a list of distinct objects, then slicing at `j` and `j + 1`. */
  lemma RemovedSlices(xs: seq<Slot>, j: nat)
    requires Unique(xs) && j + 1 < |xs|
    ensures Take(Without(xs, xs[j].ref), j) == xs[..j]
    ensures Drop(Without(xs, xs[j].ref), j + 1) == xs[j + 2..]
  {
    WithoutAt(xs, j);
    SlicesAfterRemoval(xs, j);
  }

  /** A covering booking whose slot object is no longer in the list removes nothing. */
  lemma CoveredGoneIsNoop(a: Booking, slot: Slot, i: nat, b: Built)
    requires Covers(a, slot) && !Inside(a, slot)
    requires forall s :: s in b.slots ==> s.ref != slot.ref
    ensures Step(a, slot, i, b) == b
  {
    WithoutAbsent(b.slots, slot.ref);
  }

  /**
   * Removal by identity does not skip: one booking covering two neighbouring
   * slots removes both (the older module keeps the second).
   */
  lemma CoveredNeighboursRemoved(a: Booking, s0: Slot, s1: Slot, next: nat)
    requires s0.ref != s1.ref
    requires Covers(a, s0) && !Inside(a, s0) && Covers(a, s1) && !Inside(a, s1)
    ensures Subtract(Built([s0, s1], next), [a]).slots == []
  {
    var snapshot := [s0, s1];
    var b := Built(snapshot, next);
    assert Without(snapshot, s0.ref) == [s1];
    assert Step(a, s0, 0, b) == Built([s1], next);
    assert Without([s1], s1.ref) == [];
    assert Step(a, s1, 1, Built([s1], next)) == Built([], next);
    assert Pass(a, snapshot, 2, Built([], next)) == Built([], next);
    assert Pass(a, snapshot, 1, Built([s1], next)) == Built([], next);
    assert Pass(a, snapshot, 0, b) == Built([], next);
  }

  /** `InvalidActionException` with its message. */
  datatype Error = InvalidAction(message: string)

  const PastDate: string := "Date can't be in the past"
  const NotProvided: string := "Employee doesn't provide the service specified"

  /** `if start < datetime.now(): start = datetime.now()`. */
  function Clamp(start: DateTime, now: DateTime): (r: DateTime)
    ensures r >= start && r >= now && (r == start || r == now)
  {
    if start < now then now else start
  }

  /** The bookings to cut out: the employee's, then the customer's when a customer is given. */
  function Bookings(employeeBookings: seq<Booking>, customer: Option<seq<Booking>>): seq<Booking>
  {
    if customer.Some? then employeeBookings + customer.value else employeeBookings
  }

  /**
   * `get_availability(employee, customer, start, end)` with `now` and `today`
   * the clock's readings; the bookings are those confirmed between the
   * clamped start and `end`. It fails exactly when end's date is not after
   * today; otherwise the slots are distinct objects, and for bookings that do
   * not end before they start every slot starts after the clamped start.
   */
  function GetAvailabilitySpec(e: M.Employee, employeeBookings: seq<Booking>, customer: Option<seq<Booking>>,
                               start: DateTime, end: DateTime, now: DateTime, today: int): (r: Result<seq<Slot>, Error>)
    ensures r.Err? <==> Date(end) <= today
    ensures r.Err? ==> r.error == InvalidAction(PastDate)
    ensures r.Ok? ==> Unique(r.value)
    ensures r.Ok? && WellFormed(Bookings(employeeBookings, customer)) ==> AllAfter(r.value, Clamp(start, now))
  {
    var from := Clamp(start, now);
    if Date(end) <= today then Err(InvalidAction(PastDate))
    else
      var built := Days(e, Midnight(from), end, from, Built([], 0));
      DaysFresh(e, Midnight(from), end, from, Built([], 0));
      SubtractKeeps(built, Bookings(employeeBookings, customer), from);
      Ok(Subtract(built, Bookings(employeeBookings, customer)).slots)
  }

  /**
   * The `while day < end` loop of `get_availability` from `first`, the
   * midnight of `start`, keeping the slots that begin after `start`; `next`
   * numbers the slot objects as they are created.
   */
  method BuildSlots(e: M.Employee, first: DateTime, start: DateTime, end: DateTime) returns (b: Built)
    ensures b == Days(e, first, end, start, Built([], 0))
  {
    var day := first;
    var slots: seq<Slot> := [];
    var next: nat := 0;
    while day < end
      invariant Days(e, day, end, start, Built(slots, next)) == Days(e, first, end, start, Built([], 0))
      decreases end - day
    {
      ghost var before := Built(slots, next);
      var frames := M.EmployeeAvailability(e, day);
      slots := slots + Later(FrameSlots(day, frames, next), start);
      next := next + |frames|;
      assert Built(slots, next) == DayStep(e, day, start, before);
      day := day + DAY;
    }
    return Built(slots, next);
  }

  /**
   * The booking loops of `get_availability`: each booking in turn runs the
   * `enumerate` loop over the list as it was before that booking.
   */
  method CutOut(built: Built, appointments: seq<Booking>) returns (b: Built)
    ensures b == Subtract(built, appointments)
  {
    b := built;
    var j := 0;
    assert appointments[j..] == appointments;
    while j < |appointments|
      invariant 0 <= j <= |appointments|
      invariant Subtract(b, appointments[j..]) == Subtract(built, appointments)
    {
      assert appointments[j..][0] == appointments[j];
      assert appointments[j..][1..] == appointments[j + 1..];
      b := Sweep(appointments[j], b);
      j := j + 1;
    }
    assert appointments[j..] == [];
  }

  /**
   * The `enumerate` loop for one booking: a covering booking filters the
   * slot object out of the current list, a booking inside it splits the
   * current entry `i`.
   */
  method Sweep(appointment: Booking, built: Built) returns (b: Built)
    ensures b == Pass(appointment, built.slots, 0, built)
  {
    var snapshot := built.slots;
    var slots := built.slots;
    var next := built.next;
    var i := 0;
    while i < |snapshot|
      invariant 0 <= i <= |snapshot|
      invariant Pass(appointment, snapshot, i, Built(slots, next)) == Pass(appointment, snapshot, 0, built)
    {
      slots, next := Turn(appointment, snapshot[i], i, slots, next);
      i := i + 1;
    }
    return Built(slots, next);
  }

  /** The body of the `enumerate` loop for the snapshot entry `slot` at index `i`. */
  method Turn(appointment: Booking, slot: Slot, i: nat, slots: seq<Slot>, next: nat) returns (slots': seq<Slot>, next': nat)
    ensures Built(slots', next') == Step(appointment, slot, i, Built(slots, next))
  {
    slots', next' := slots, next;
    if appointment.start <= slot.start && appointment.end >= slot.end {
      slots' := Without(slots', slot.ref);
    }
    if appointment.start >= slot.start && appointment.end <= slot.end {
      slots' := Take(slots', i) + [Slot(slot.start, appointment.start, next'), Slot(appointment.end, slot.end, next' + 1)]
                + Drop(slots', i + 1);
      next' := next' + 2;
    }
  }


  /** `get_availability`: the clamp, the date check, the day loop, the bookings, then the booking loops. */
  method GetAvailability(e: M.Employee, employeeBookings: seq<Booking>, customer: Option<seq<Booking>>,
                         start: DateTime, end: DateTime, now: DateTime, today: int) returns (r: Result<seq<Slot>, Error>)
    ensures r == GetAvailabilitySpec(e, employeeBookings, customer, start, end, now, today)
  {
    var from := start;
    if from < now {
      from := now;
    }
    if Date(end) <= today {
      return Err(InvalidAction(PastDate));
    }
    var built := BuildSlots(e, Midnight(from), from, end);
    var appointments := employeeBookings;
    if customer.Some? {
      appointments := appointments + customer.value;
    }
    var b := CutOut(built, appointments);
    return Ok(b.slots);
  }

  /** The service as this module reads it: its id and its `duration`, a positive span. */
  datatype Service = Service(id: nat, duration: int)

  /** An employee offering the service, with its confirmed bookings. */
  datatype Staff = Staff(employee: M.Employee, bookings: seq<Booking>)

  /** `slots.update(slot.breakdown_slot(d))` for each slot in turn. */
  function Collect(acc: map<DateTime, Piece>, slots: seq<Slot>, d: int): map<DateTime, Piece>
    requires d > 0
    decreases |slots|
  {
    if slots == [] then acc else Collect(acc + Breakdown(slots[0].start, slots[0].end, d), slots[1..], d)
  }

  /** The loop over `service.employee_set.all()`; the first failure ends it. */
  function CollectStaff(acc: map<DateTime, Piece>, staff: seq<Staff>, customer: Option<seq<Booking>>,
                        start: DateTime, end: DateTime, now: DateTime, today: int, d: int): Result<map<DateTime, Piece>, Error>
    requires d > 0
    decreases |staff|
  {
    if staff == [] then Ok(acc)
    else match GetAvailabilitySpec(staff[0].employee, staff[0].bookings, customer, start, end, now, today)
      case Err(err) => Err(err)
      case Ok(slots) => CollectStaff(Collect(acc, slots, d), staff[1..], customer, start, end, now, today, d)
  }

  /** `sorted(slots.values(), key=start)`, with each piece stored under its own start. */
  function SortedByStart(m: map<DateTime, Piece>): (r: seq<Piece>)
    ensures |r| == |m|
  {
    var ks := SortedInts(m.Keys);
    seq(|ks|, i requires 0 <= i < |ks| => m[ks[i]])
  }

  /**
   * `get_availability_for_service(service, start, end, employee, customer)`;
   * `staff` is `service.employee_set.all()`, read when no employee is given.
   */
  function ForServiceSpec(service: Service, start: DateTime, end: DateTime, employee: Option<Staff>,
                          customer: Option<seq<Booking>>, staff: seq<Staff>, now: DateTime, today: int): Result<seq<Piece>, Error>
    requires service.duration > 0
  {
    if employee.Some? && !M.ProvidesService(employee.value.employee, service.id) then
      Err(InvalidAction(NotProvided))
    else
      var collected :=
        if employee.Some? then
          match GetAvailabilitySpec(employee.value.employee, employee.value.bookings, customer, start, end, now, today)
          case Err(err) => Err(err)
          case Ok(slots) => Ok(Collect(map[], slots, service.duration))
        else CollectStaff(map[], staff, customer, start, end, now, today, service.duration);
      match collected
      case Err(err) => Err(err)
      case Ok(m) => Ok(SortedByStart(m))
  }

  /** `get_availability_for_service`, loop by loop. */
  method GetAvailabilityForService(service: Service, start: DateTime, end: DateTime, employee: Option<Staff>,
                                   customer: Option<seq<Booking>>, staff: seq<Staff>, now: DateTime, today: int)
    returns (r: Result<seq<Piece>, Error>)
    requires service.duration > 0
    ensures r == ForServiceSpec(service, start, end, employee, customer, staff, now, today)
  {
    if employee.Some? && !M.ProvidesService(employee.value.employee, service.id) {
      return Err(InvalidAction(NotProvided));
    }
    var slots: map<DateTime, Piece> := map[];
    if employee.Some? {
      var available := GetAvailability(employee.value.employee, employee.value.bookings, customer, start, end, now, today);
      if available.Err? {
        return Err(available.error);
      }
      var k := 0;
      while k < |available.value|
        invariant 0 <= k <= |available.value|
        invariant Collect(slots, available.value[k..], service.duration) == Collect(map[], available.value, service.duration)
      {
        assert available.value[k..][1..] == available.value[k + 1..];
        slots := slots + Breakdown(available.value[k].start, available.value[k].end, service.duration);
        k := k + 1;
      }
    } else {
      var n := 0;
      while n < |staff|
        invariant 0 <= n <= |staff|
        invariant CollectStaff(slots, staff[n..], customer, start, end, now, today, service.duration)
                  == CollectStaff(map[], staff, customer, start, end, now, today, service.duration)
      {
        var available := GetAvailability(staff[n].employee, staff[n].bookings, customer, start, end, now, today);
        if available.Err? {
          return Err(available.error);
        }
        var before := slots;
        var k := 0;
        while k < |available.value|
          invariant 0 <= k <= |available.value|
          invariant Collect(slots, available.value[k..], service.duration) == Collect(before, available.value, service.duration)
        {
          assert available.value[k..][1..] == available.value[k + 1..];
          var a := Breakdown(available.value[k].start, available.value[k].end, service.duration);
          slots := slots + a;
          k := k + 1;
        }
        assert staff[n..][1..] == staff[n + 1..];
        n := n + 1;
      }
    }
    return Ok(SortedByStart(slots));
  }

  /** Every piece is exactly `d` long and stored under its own start. */
  predicate Exact(m: map<DateTime, Piece>, d: int)
  {
    forall k :: k in m ==> m[k] == Piece(k, k + d)
  }

  lemma {:induction false} CollectExact(acc: map<DateTime, Piece>, slots: seq<Slot>, d: int)
    requires d > 0 && Exact(acc, d)
    ensures Exact(Collect(acc, slots, d), d)
    decreases |slots|
  {
    if slots != [] {
      var b := Breakdown(slots[0].start, slots[0].end, d);
      BreakdownPieces(slots[0].start, slots[0].end, d);
      assert Exact(acc + b, d);
      CollectExact(acc + b, slots[1..], d);
    }
  }

  /**
   * Without an employee the loop fails iff there is some employee and end's
   * date is past; the pieces gathered are each exactly `d` long.
   */
  lemma {:induction false} CollectStaffFacts(acc: map<DateTime, Piece>, staff: seq<Staff>, customer: Option<seq<Booking>>,
                                             start: DateTime, end: DateTime, now: DateTime, today: int, d: int)
    requires d > 0
    ensures var r := CollectStaff(acc, staff, customer, start, end, now, today, d);
            (r.Err? <==> staff != [] && Date(end) <= today) &&
            (r.Err? ==> r.error == InvalidAction(PastDate)) &&
            (r.Ok? && Exact(acc, d) ==> Exact(r.value, d))
    decreases |staff|
  {
    if staff != [] {
      var g := GetAvailabilitySpec(staff[0].employee, staff[0].bookings, customer, start, end, now, today);
      if g.Ok? {
        var next := Collect(acc, g.value, d);
        if Exact(acc, d) {
          CollectExact(acc, g.value, d);
        }
        CollectStaffFacts(next, staff[1..], customer, start, end, now, today, d);
      }
    }
  }

  /**
   * `get_availability_for_service` fails with the service message iff an
   * employee is given that does not offer the service; otherwise with the
   * date message iff end's date is past and some availability is computed.
   */
  lemma ForServiceErrors(service: Service, start: DateTime, end: DateTime, employee: Option<Staff>,
                         customer: Option<seq<Booking>>, staff: seq<Staff>, now: DateTime, today: int)
    requires service.duration > 0
    ensures var r := ForServiceSpec(service, start, end, employee, customer, staff, now, today);
            var refused := employee.Some? && !M.ProvidesService(employee.value.employee, service.id);
            (r == Err(InvalidAction(NotProvided)) <==> refused) &&
            (r == Err(InvalidAction(PastDate)) <==> !refused && Date(end) <= today && (employee.Some? || staff != []))
  {
    CollectStaffFacts(map[], staff, customer, start, end, now, today, service.duration);
  }

  /**
   * The result is ordered by start with one piece per start time, and every
   * piece is exactly the service's duration long.
   */
  lemma ForServiceSorted(service: Service, start: DateTime, end: DateTime, employee: Option<Staff>,
                         customer: Option<seq<Booking>>, staff: seq<Staff>, now: DateTime, today: int)
    requires service.duration > 0
    ensures var r := ForServiceSpec(service, start, end, employee, customer, staff, now, today);
            r.Ok? ==> (forall i, j :: 0 <= i < j < |r.value| ==> r.value[i].start < r.value[j].start) &&
                      (forall i :: 0 <= i < |r.value| ==> r.value[i].end - r.value[i].start == service.duration)
  {
    var d := service.duration;
    var r := ForServiceSpec(service, start, end, employee, customer, staff, now, today);
    if r.Ok? {
      var m: map<DateTime, Piece>;
      if employee.Some? {
        var g := GetAvailabilitySpec(employee.value.employee, employee.value.bookings, customer, start, end, now, today);
        m := Collect(map[], g.value, d);
        CollectExact(map[], g.value, d);
      } else {
        CollectStaffFacts(map[], staff, customer, start, end, now, today, d);
        m := CollectStaff(map[], staff, customer, start, end, now, today, d).value;
      }
      assert r.value == SortedByStart(m);
      SortedPieces(m, d);
    }
  }

  /** The ascending list of pieces each `d` long under their own start: strictly increasing starts. */
  lemma SortedPieces(m: map<DateTime, Piece>, d: int)
    requires Exact(m, d)
    ensures var r := SortedByStart(m);
            (forall i, j :: 0 <= i < j < |r| ==> r[i].start < r[j].start) &&
            (forall i :: 0 <= i < |r| ==> r[i].end - r[i].start == d)
  {
    var ks := SortedInts(m.Keys);
    var r := SortedByStart(m);
    assert forall i :: 0 <= i < |r| ==> r[i] == m[ks[i]] && r[i].start == ks[i];
  }
}
