/**
 * Python `datetime` values as whole seconds. Instant 0 is the midnight that
 * starts a Monday, so the calendar day of an instant `t` is `t / DAY` and its
 * `weekday()` (Monday = 0) is that day number modulo 7. A `datetime.time` is
 * the number of seconds since midnight. Microseconds are not represented.
 */
module DateTimes {
  const MINUTE: int := 60
  const HOUR: int := 3600
  const DAY: int := 86400

  type DateTime = int

  /** A `datetime.time`: seconds since midnight. */
  type TimeOfDay = t: int | 0 <= t < DAY

  /** `dt.date()`, as a day number. */
  function Date(t: DateTime): int
  {
    t / DAY
  }

  /** `dt.time()`. */
  function TimeOf(t: DateTime): TimeOfDay
  {
    t % DAY
  }

  /** `dt.weekday()`. */
  function Weekday(t: DateTime): (w: int)
    ensures 0 <= w < 7
  {
    Date(t) % 7
  }

  /** `dt.replace(hour=0, minute=0, second=0, microsecond=0)`. */
  function Midnight(t: DateTime): (m: DateTime)
    ensures m <= t < m + DAY
    ensures Date(m) == Date(t) && TimeOf(m) == 0
  {
    t - t % DAY
  }

  /** `dt.replace(second=0, microsecond=0)`: the start of the minute holding `t`. */
  function TruncateMinute(t: int): (r: int)
    ensures r % MINUTE == 0 && r <= t < r + MINUTE
  {
    t - t % MINUTE
  }

  /** `time.hour`. */
  function HourOf(tod: TimeOfDay): int
  {
    tod / HOUR
  }

  /** `time.minute`. */
  function MinuteOf(tod: TimeOfDay): int
  {
    tod % HOUR / MINUTE
  }

  /** `timedelta(hours=tod.hour, minutes=tod.minute)`: the time of day without its seconds. */
  function HoursMinutes(tod: TimeOfDay): (span: int)
    ensures span == TruncateMinute(tod)
    ensures 0 <= span <= tod < span + MINUTE
  {
    var h := HourOf(tod);
    var m := MinuteOf(tod);
    assert tod == h * HOUR + m * MINUTE + tod % MINUTE by {
      assert tod == h * HOUR + tod % HOUR;
      assert tod % HOUR == m * MINUTE + tod % HOUR % MINUTE;
      assert tod % HOUR % MINUTE == tod % MINUTE by {
        assert HOUR == 60 * MINUTE;
        ModOfMod(tod, 60, MINUTE);
      }
    }
    h * HOUR + m * MINUTE
  }

  /** Reducing modulo `k * m` and then modulo `m` is reducing modulo `m`. */
  lemma ModOfMod(t: int, k: int, m: int)
    requires k > 0 && m > 0
    ensures t % (k * m) % m == t % m
  {
    var q := t / (k * m);
    var r := t % (k * m);
    assert t == (q * k) * m + r by {
      assert q * (k * m) == (q * k) * m;
    }
    assert r == (r / m) * m + r % m;
    assert t == (q * k + r / m) * m + r % m;
    assert 0 <= r % m < m;
    DivModUnique(t, m, q * k + r / m, r % m);
  }

  /** The quotient and remainder of a division are the only such pair. */
  lemma DivModUnique(t: int, m: int, q: int, r: int)
    requires m > 0 && 0 <= r < m && t == q * m + r
    ensures t % m == r && t / m == q
  {
    var q' := t / m;
    var r' := t % m;
    assert q * m - q' * m == r' - r;
    MulSub(q, q', m);
    var d := q - q';
    if d > 0 {
      MulAtLeast(d, m);
    } else if d < 0 {
      MulAtLeast(-d, m);
    }
  }

  lemma MulSub(a: int, b: int, m: int)
    ensures a * m - b * m == (a - b) * m
  {
  }

  /** A positive multiple of `m` is at least `m`. */
  lemma {:induction false} MulAtLeast(d: int, m: int)
    requires d >= 1 && m > 0
    ensures d * m >= m
  {
    if d > 1 {
      MulAtLeast(d - 1, m);
      assert d * m == (d - 1) * m + m;
    }
  }

  /** Subtracting `d` from a multiple of `d` leaves a multiple of `d`, and conversely. */
  lemma ModShift(x: int, d: int)
    requires d > 0
    ensures (x - d) % d == x % d
  {
    DivModUnique(x - d, d, x / d - 1, x % d);
  }

  /** `k` is `start` plus a multiple of `d` iff it is `start` or `start + d` plus a multiple of `d`. */
  lemma MultipleStep(k: int, start: int, d: int)
    requires d > 0
    ensures (start <= k && (k - start) % d == 0) <==> (k == start || (start + d <= k && (k - (start + d)) % d == 0))
  {
    var x := k - start;
    assert k - (start + d) == x - d;
    ModShift(x, d);
    if 0 < x < d {
      DivModUnique(x, d, 0, x);
    }
  }

  /** The sum of two whole numbers of minutes is a whole number of minutes. */
  lemma AlignedShift(a: int, d: int)
    requires a % MINUTE == 0 && d % MINUTE == 0
    ensures (a + d) % MINUTE == 0
  {
    DivModUnique(a + d, MINUTE, a / MINUTE + d / MINUTE, 0);
  }

  /** Removing one `d` from a length removes one from its quotient by `d`. */
  lemma QuotientStep(n: int, d: int)
    requires 0 < d < n
    ensures forall r :: r == n - d ==> r / d + 1 == n / d
  {
    DivModUnique(n, d, (n - d) / d + 1, (n - d) % d);
  }

  /**
   * `dt.replace(hour=tod.hour, minute=tod.minute)`: the day of `dt` at the
   * hour and minute of `tod`, keeping the seconds of `dt`.
   */
  function ReplaceHourMinute(t: DateTime, tod: TimeOfDay): (r: DateTime)
    ensures Date(r) == Date(t)
    ensures r % MINUTE == t % MINUTE
    ensures TruncateMinute(r) == Midnight(t) + TruncateMinute(tod)
  {
    var r := Midnight(t) + HoursMinutes(tod) + t % MINUTE;
    assert Midnight(t) % MINUTE == 0 by {
      assert DAY == 1440 * MINUTE;
      ModOfMod(Midnight(t), 1440, MINUTE);
    }
    assert r % MINUTE == t % MINUTE by {
      DivModUnique(r, MINUTE, Midnight(t) / MINUTE + HoursMinutes(tod) / MINUTE, t % MINUTE);
    }
    assert r - Midnight(t) < DAY;
    DivModUnique(r, DAY, Date(t), r - Midnight(t));
    r
  }

  /** Dropping the seconds keeps the calendar day. */
  lemma TruncateSameDate(t: DateTime)
    ensures Date(TruncateMinute(t)) == Date(t)
  {
    ModOfMod(t, 1440, MINUTE);
    DivModUnique(TruncateMinute(t), DAY, Date(t), TimeOf(t) - t % MINUTE);
  }

  /** A later instant is not on an earlier day. */
  lemma DateMonotone(a: DateTime, b: DateTime)
    requires a <= b
    ensures Date(a) <= Date(b)
  {
    if Date(a) > Date(b) {
      MulAtLeast(Date(a) - Date(b), DAY);
      MulSub(Date(a), Date(b), DAY);
    }
  }

  /** `dt + timedelta(days=1)` moves to the next calendar day at the same time. */
  lemma NextDay(t: DateTime)
    ensures Date(t + DAY) == Date(t) + 1 && TimeOf(t + DAY) == TimeOf(t)
    ensures Weekday(t + DAY) == (Weekday(t) + 1) % 7
  {
    DivModUnique(t + DAY, DAY, Date(t) + 1, TimeOf(t));
  }

  /** The weekday repeats every seven days. */
  lemma {:induction false} WeekdayPeriodic(t: DateTime, weeks: nat)
    ensures Weekday(t + weeks * 7 * DAY) == Weekday(t)
  {
    if weeks > 0 {
      var u := t + (weeks - 1) * 7 * DAY;
      WeekdayPeriodic(t, weeks - 1);
      DivModUnique(u + 7 * DAY, DAY, Date(u) + 7, TimeOf(u));
      assert u + 7 * DAY == t + weeks * 7 * DAY;
    }
  }
}

/** Python list slicing `xs[:i]` and `xs[i:]` for an index that may lie past the end. */
module PyLists {
  /** `xs[:i]`. */
  function Take<T>(xs: seq<T>, i: nat): (r: seq<T>)
    ensures |r| == if i <= |xs| then i else |xs|
    ensures r <= xs
  {
    if i <= |xs| then xs[..i] else xs
  }

  /** `xs[i:]`. */
  function Drop<T>(xs: seq<T>, i: nat): (r: seq<T>)
    ensures |r| == if i <= |xs| then |xs| - i else 0
    ensures Take(xs, i) + r == xs
  {
    if i <= |xs| then xs[i..] else []
  }

  /** Both slices hold only elements of the list. */
  lemma SliceMembers<T>(xs: seq<T>, i: nat)
    ensures forall x :: x in Take(xs, i) ==> x in xs
    ensures forall x :: x in Drop(xs, i) ==> x in xs
  {
    assert Take(xs, i) + Drop(xs, i) == xs;
  }

  /** `sorted(ks)` for a set of distinct integers: ascending, each once. */
  function SortedInts(ks: set<int>): (r: seq<int>)
    ensures |r| == |ks| && forall k :: k in r <==> k in ks
    ensures forall i, j :: 0 <= i < j < |r| ==> r[i] < r[j]
    decreases |ks|
  {
    if ks == {} then []
    else
      var m := Least(ks);
      var rest := SortedInts(ks - {m});
      assert forall k :: k in rest ==> m < k;
      ConsAscending(m, rest);
      assert |ks - {m}| == |ks| - 1;
      assert forall k :: k in [m] + rest <==> k == m || k in rest;
      [m] + rest
  }

  /** A value below every element of an ascending list extends it to an ascending list. */
  lemma ConsAscending(m: int, rest: seq<int>)
    requires forall i, j :: 0 <= i < j < |rest| ==> rest[i] < rest[j]
    requires forall k :: k in rest ==> m < k
    ensures forall i, j :: 0 <= i < j < |[m] + rest| ==> ([m] + rest)[i] < ([m] + rest)[j]
  {
    forall i, j | 0 <= i < j < |[m] + rest|
      ensures ([m] + rest)[i] < ([m] + rest)[j]
    {
      assert ([m] + rest)[j] == rest[j - 1];
      if i > 0 {
        assert ([m] + rest)[i] == rest[i - 1];
      } else {
        assert rest[j - 1] in rest;
      }
    }
  }

  /** `min(ks)`. */
  function Least(ks: set<int>): (m: int)
    requires ks != {}
    ensures m in ks && forall k :: k in ks ==> m <= k
  {
    MinExists(ks);
    var m :| m in ks && forall k :: k in ks ==> m <= k;
    m
  }

  /** A finite non-empty set of integers has a least element. */
  lemma {:induction false} MinExists(ks: set<int>)
    requires ks != {}
    ensures exists m :: m in ks && forall k :: k in ks ==> m <= k
    decreases |ks|
  {
    var x := Pick(ks);
    assert forall k :: k in ks ==> k == x || k in ks - {x};
    if ks - {x} != {} {
      MinExists(ks - {x});
      var m :| m in ks - {x} && forall k :: k in ks - {x} ==> m <= k;
      if x < m {
        assert forall k :: k in ks ==> x <= k;
      } else {
        assert forall k :: k in ks ==> m <= k;
      }
    } else {
      assert forall k :: k in ks ==> k == x;
    }
  }

  /** Some element of a non-empty set. */
  lemma Pick<T>(ks: set<T>) returns (x: T)
    requires ks != {}
    ensures x in ks
  {
    x :| x in ks;
  }
}
